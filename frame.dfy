/** The view of an 802.11 frame that the injection tests and the IV-reuse
    engine work on, and its accessors: sequence and fragment number, the
    protected-frame test, the IV, the QoS priority and information-element
    lookup. Frame dissection itself belongs to the packet library and is not
    modelled: a Frame holds the already dissected fields. */
module Frames {
  import opened Common

  /** Bits of the flags octet of the Frame Control field (IEEE 802.11-2016,
      section 9.2.4.1). */
  const MoreFragments: bv8 := 0x04
  const MoreData: bv8 := 0x20
  const ProtectedFrame: bv8 := 0x40

  /** Which encrypted-layer class the packet library guessed for a protected
      payload. The library tells CCMP from TKIP by a heuristic. */
  datatype CipherGuess = Ccmp | Tkip | Generic

  /** The encryption header the library dissected, if any. */
  datatype Protection =
    | Plain
      // Dot11CCMP, Dot11TKIP or Dot11Encrypted: the octets of that layer
    | Encrypted(guess: CipherGuess, layer: seq<bv8>)
      // Dot11WEP: the three IV octets, the key-ID octet and the data after it
    | Wep(iv: seq<bv8>, keyid: bv8, wepdata: seq<bv8>)

  /** One information element (section 9.4.2.1): Element ID and information. */
  datatype Element = Element(id: bv8, info: seq<bv8>)

  /** The Traffic Identifier of a QoS Control field, four bits. */
  type Tid = t: int | 0 <= t < 16

  /** A dissected frame.
      fcField: flags octet of Frame Control; sc: Sequence Control;
      tid: the TID when a QoS Control field is present; load: the octets of a
      trailing raw payload (empty when there is none); elements: the chain of
      consecutive information elements starting at the first one; eapol:
      whether an EAPOL layer was dissected; time: the capture timestamp. */
  datatype Frame = Frame(
    fcField: bv8,
    sc: nat,
    tid: Option<Tid>,
    protection: Protection,
    load: seq<bv8>,
    elements: seq<Element>,
    eapol: bool,
    time: int)

  /** dot11_get_seqnum: the 12-bit Sequence Number, `SC >> 4` (section 9.2.4.4). */
  function SeqNum(p: Frame): (r: nat)
    ensures r * 16 + FragNum(p) == p.sc
    ensures p.sc < 0x1_0000 ==> r < 0x1000
  {
    p.sc / 16
  }

  /** The 4-bit Fragment Number, `SC & 0xf`. */
  function FragNum(p: Frame): (r: nat)
    ensures r < 16
  {
    p.sc % 16
  }

  /** Sequence and fragment number are the only split of SC into a number of
      sixteens and a remainder below sixteen. */
  lemma SeqFragDetermined(p: Frame, s: nat, f: nat)
    requires f < 16 && s * 16 + f == p.sc
    ensures SeqNum(p) == s && FragNum(p) == f
  {
    DivModUnique(p.sc, 16, s, f);
  }

  lemma SeqFragExample(p: Frame)
    requires p.sc == 0x021F
    ensures SeqNum(p) == 0x21 && FragNum(p) == 0xF
  {
  }

  /** dot11_is_encrypted_data: the Protected Frame bit, or an encryption
      header dissected by the library. A frame is plaintext only when the
      bit is clear and no such header was found. */
  function IsEncryptedData(p: Frame): (r: bool)
    ensures p.fcField & ProtectedFrame != 0 ==> r
    ensures p.protection.Encrypted? || p.protection.Wep? ==> r
    ensures !r ==> p.protection == Plain && p.fcField & ProtectedFrame == 0
  {
    p.fcField & ProtectedFrame != 0 || !p.protection.Plain?
  }

  /** A 32-bit big-endian integer, struct.unpack(">I", b). */
  function BE32(b: seq<bv8>): (r: nat)
    requires |b| == 4
    ensures r < 0x1_0000_0000
  {
    (b[0] as int) * 0x100_0000 + (b[1] as int) * 0x1_0000 + (b[2] as int) * 0x100 + b[3] as int
  }

  /** payload_to_iv: octets 0 and 1 of a CCMP header (section 12.5.3.2) are
      PN0 and PN1, octets 4 to 7 are PN2..PN5; they are put together as
      `b0 + (b1 << 8) + (BE32(b4..b7) << 16)`. Octets 2 and 3 and everything
      from octet 8 on are ignored. Fewer than two octets fail on indexing,
      fewer than eight in struct.unpack. */
  function PayloadToIv(payload: seq<bv8>): (r: Result<nat>)
    ensures r.Raises? <==> |payload| < 8
    ensures |payload| < 2 ==> r == Raises(IndexError)
    ensures 2 <= |payload| < 8 ==> r == Raises(StructError)
    ensures r.Ok? ==> r.value < 0x1_0000_0000_0000
    ensures r.Ok? ==> (r.value % 0x100 == payload[0] as int
                       && (r.value / 0x100) % 0x100 == payload[1] as int
                       && r.value / 0x1_0000 == BE32(payload[4..8]))
  {
    if |payload| < 2 then Raises(IndexError)
    else if |payload| < 8 then Raises(StructError)
    else Ok(payload[0] as int + (payload[1] as int) * 0x100 + BE32(payload[4..8]) * 0x1_0000)
  }

  /** The IV depends on octets 0, 1 and 4..7 only. */
  lemma PayloadToIvReadsSixOctets(a: seq<bv8>, b: seq<bv8>)
    requires |a| >= 8 && |b| >= 8
    requires a[0] == b[0] && a[1] == b[1] && a[4..8] == b[4..8]
    ensures PayloadToIv(a) == PayloadToIv(b)
  {
  }

  /** dot11_get_iv. CCMP, TKIP and generic encrypted layers all go through
      the CCMP formula. A WEP header with the ExtIV bit (0x20 of the key-ID
      octet) uses the same formula on its octets; without it, the 24-bit WEP
      IV. A Protected Frame with no dissected header uses the raw payload. A
      plaintext frame gives 0. */
  function GetIv(p: Frame): (r: Result<nat>)
    ensures r.Ok? ==> r.value < 0x1_0000_0000_0000
  {
    match p.protection
    case Encrypted(_, layer) => PayloadToIv(layer)
    case Wep(iv, keyid, wepdata) =>
      if keyid & 0x20 != 0 then
        if |iv| < 2 then Raises(IndexError)
        else if |wepdata| < 4 then Raises(StructError)
        else Ok(iv[0] as int + (iv[1] as int) * 0x100 + BE32(wepdata[..4]) * 0x1_0000)
      else
        if |iv| < 3 then Raises(IndexError)
        else Ok(iv[0] as int + (iv[1] as int) * 0x100 + (iv[2] as int) * 0x1_0000)
    case Plain =>
      if p.fcField & ProtectedFrame != 0 then PayloadToIv(p.load) else Ok(0)
  }

  /** A plaintext frame has IV 0; it is not an error. */
  lemma PlaintextIvIsZero(p: Frame)
    requires !IsEncryptedData(p)
    ensures GetIv(p) == Ok(0)
  {
  }

  /** Reading the IV can only fail on a frame that counts as encrypted data. */
  lemma OnlyEncryptedDataRaises(p: Frame)
    ensures GetIv(p).Raises? ==> IsEncryptedData(p)
  {
  }

  /** A frame guessed to be TKIP gets exactly the IV it would get as CCMP:
      the approximation is kept, not corrected to TKIP's TSC order. */
  lemma TkipReadAsCcmp(p: Frame, layer: seq<bv8>)
    ensures GetIv(p.(protection := Encrypted(Tkip, layer)))
         == GetIv(p.(protection := Encrypted(Ccmp, layer)))
         == PayloadToIv(layer)
  {
  }

  /** The ExtIV branch of a WEP header is the CCMP formula applied to the
      header's octets in wire order: IV, key ID, then the extended IV. */
  lemma WepExtIvIsCcmpLayout(p: Frame)
    requires p.protection.Wep? && p.protection.keyid & 0x20 != 0
    requires |p.protection.iv| == 3 && |p.protection.wepdata| >= 4
    ensures GetIv(p) == PayloadToIv(p.protection.iv + [p.protection.keyid] + p.protection.wepdata)
  {
    var w := p.protection;
    var octets := w.iv + [w.keyid] + w.wepdata;
    assert octets[0] == w.iv[0] && octets[1] == w.iv[1];
    assert octets[4..8] == w.wepdata[..4];
  }

  /** Three octets put together least significant first. */
  lemma LittleEndian24(i0: int, i1: int, i2: int)
    requires 0 <= i0 < 0x100 && 0 <= i1 < 0x100 && 0 <= i2 < 0x100
    ensures var v := i0 + i1 * 0x100 + i2 * 0x1_0000;
      && 0 <= v < 0x100_0000
      && v % 0x100 == i0
      && (v / 0x100) % 0x100 == i1
      && v / 0x1_0000 == i2
  {
    var v := i0 + i1 * 0x100 + i2 * 0x1_0000;
    assert (i1 + i2 * 0x100) * 0x100 == i1 * 0x100 + i2 * 0x1_0000;
    DivModUnique(v, 0x100, i1 + i2 * 0x100, i0);
    DivModUnique(i1 + i2 * 0x100, 0x100, i2, i1);
    DivModUnique(v, 0x1_0000, i2, i0 + i1 * 0x100);
  }

  /** Without ExtIV the IV is the 24-bit WEP IV, IV octet 0 least significant. */
  lemma WepLegacyIvIs24Bit(p: Frame)
    requires p.protection.Wep? && p.protection.keyid & 0x20 == 0
    requires |p.protection.iv| >= 3
    ensures GetIv(p).Ok? && GetIv(p).value < 0x100_0000
    ensures GetIv(p).value % 0x100 == p.protection.iv[0] as int
    ensures (GetIv(p).value / 0x100) % 0x100 == p.protection.iv[1] as int
    ensures GetIv(p).value / 0x1_0000 == p.protection.iv[2] as int
  {
    var iv := p.protection.iv;
    var i0, i1, i2 := iv[0] as int, iv[1] as int, iv[2] as int;
    assert GetIv(p) == Ok(i0 + i1 * 0x100 + i2 * 0x1_0000);
    LittleEndian24(i0, i1, i2);
  }

  /** dot11_get_priority: the TID of the QoS Control field, 0 without one. */
  function Priority(p: Frame): (r: int)
    ensures 0 <= r < 16
    ensures p.tid.None? ==> r == 0
    ensures p.tid.Some? ==> r == p.tid.value
  {
    match p.tid
    case None => 0
    case Some(t) => t
  }

  /** The position of the first element of the chain, from position k on,
      whose ID is t: the walk along the layers that get_tlv_value and
      get_element make. */
  function FirstWithId(chain: seq<Element>, t: int, k: nat): (r: Option<nat>)
    requires k <= |chain|
    ensures r.None? <==> forall i :: k <= i < |chain| ==> chain[i].id as int != t
    ensures r.Some? ==> k <= r.value < |chain| && chain[r.value].id as int == t
    ensures r.Some? ==> forall j :: k <= j < r.value ==> chain[j].id as int != t
    decreases |chain| - k
  {
    if k == |chain| then None
    else if chain[k].id as int == t then Some(k)
    else FirstWithId(chain, t, k + 1)
  }

  /** get_tlv_value: the information of the first element with ID t, or None. */
  function GetTlvValue(p: Frame, t: int): (r: Option<seq<bv8>>)
    ensures r.None? <==> forall i :: 0 <= i < |p.elements| ==> p.elements[i].id as int != t
    ensures r.Some? ==> exists i :: (0 <= i < |p.elements| && p.elements[i].id as int == t
                                     && p.elements[i].info == r.value
                                     && forall j :: 0 <= j < i ==> p.elements[j].id as int != t)
  {
    match FirstWithId(p.elements, t, 0)
    case None => None
    case Some(i) => Some(p.elements[i].info)
  }

  /** get_element, as its loop evidently means it: the first element with the
      ID, or None when there is none. */
  function GetElement(p: Frame, id: int): (r: Option<Element>)
    ensures r.None? <==> forall i :: 0 <= i < |p.elements| ==> p.elements[i].id as int != id
    ensures r.Some? ==> r.value.id as int == id && r.value in p.elements
    ensures r.Some? ==> GetTlvValue(p, id) == Some(r.value.info)
  {
    match FirstWithId(p.elements, id, 0)
    case None => None
    case Some(i) => Some(p.elements[i])
  }

  /** get_element as written. `el[Dot11Elt]` raises when there is no element
      at all, and `el = el.payload` after the last element yields the
      library's empty-payload object, never None, so `el.ID` then raises
      AttributeError and the `return None` line is never reached. */
  function GetElementAsWritten(p: Frame, id: int): (r: Result<Element>)
    ensures |p.elements| == 0 ==> r == Raises(IndexError)
    ensures |p.elements| > 0 && GetElement(p, id).None? ==> r == Raises(AttributeError)
    ensures r.Ok? <==> GetElement(p, id).Some?
    ensures r.Ok? ==> r.value == GetElement(p, id).value
  {
    if |p.elements| == 0 then Raises(IndexError)
    else match FirstWithId(p.elements, id, 0)
      case None => Raises(AttributeError)
      case Some(i) => Ok(p.elements[i])
  }

  /** A beacon-like frame whose chain lacks the asked-for ID: the corrected
      lookup answers None, the code as written raises. */
  lemma GetElementMissingIdRaises(p: Frame)
    requires p.elements == [Element(1, [0x01, 0x02])]
    ensures GetElement(p, 0) == None
    ensures GetElementAsWritten(p, 0) == Raises(AttributeError)
  {
  }
}
