/** The IV-reuse engine: the record kept per observed IV, the reuse test
    that tells a genuine reuse from a retransmission, and the table of IVs
    seen so far. */
module IvReuse {
  import opened Common
  import opened Frames

  /** IvInfo: the IV, sequence number and capture time of one frame. */
  datatype IvInfo = IvInfo(iv: nat, seqNum: nat, time: int)

  /** IvInfo(p): fails exactly when the frame's IV cannot be read. */
  function MakeIvInfo(p: Frame): (r: Result<IvInfo>)
    ensures r.Ok? <==> GetIv(p).Ok?
    ensures r.Raises? ==> r.exc == GetIv(p).exc
    ensures r.Ok? ==> r.value.iv == GetIv(p).value && r.value.seqNum == SeqNum(p) && r.value.time == p.time
  {
    match GetIv(p)
    case Raises(e) => Raises(e)
    case Ok(iv) => Ok(IvInfo(iv, SeqNum(p), p.time))
  }

  /** IvInfo.is_reused: frame p reuses the recorded IV and is not a
      retransmission of the recorded frame. */
  function IsReused(info: IvInfo, p: Frame): (r: Result<bool>)
    ensures r.Ok? <==> GetIv(p).Ok?
    ensures r == Ok(true) <==> (GetIv(p) == Ok(info.iv) && SeqNum(p) != info.seqNum && p.time >= info.time + 1)
  {
    match GetIv(p)
    case Raises(e) => Raises(e)
    case Ok(iv) => Ok(info.iv == iv && info.seqNum != SeqNum(p) && p.time >= info.time + 1)
  }

  /** A retransmission keeps its sequence number and is never flagged. */
  lemma RetransmissionNotReused(a: Frame, b: Frame)
    requires GetIv(a).Ok? && GetIv(b) == GetIv(a) && SeqNum(b) == SeqNum(a)
    ensures IsReused(MakeIvInfo(a).value, b) == Ok(false)
  {
  }

  /** Another frame with the same IV, seen at least one time unit later, is. */
  lemma DistinctLaterFrameReused(a: Frame, b: Frame)
    requires GetIv(a).Ok? && GetIv(b) == GetIv(a) && SeqNum(b) != SeqNum(a)
    requires b.time >= a.time + 1
    ensures IsReused(MakeIvInfo(a).value, b) == Ok(true)
  {
  }

  /** Within one time unit nothing is flagged, whatever the sequence numbers. */
  lemma WithinOneTimeUnitNotReused(a: Frame, b: Frame)
    requires GetIv(a).Ok? && GetIv(b).Ok? && b.time < a.time + 1
    ensures IsReused(MakeIvInfo(a).value, b) == Ok(false)
  {
  }

  /** The largest IV of a non-empty set of tracked IVs, `max(ivs.keys())`. */
  ghost function MaxKey(s: set<nat>): (m: nat)
    requires s != {}
    ensures m in s && forall k :: k in s ==> k <= m
    decreases s
  {
    var x :| x in s;
    if s - {x} == {} then
      assert forall k :: k in s ==> k == x by {
        forall k | k in s ensures k == x { assert k !in s - {x}; }
      }
      x
    else
      var m := MaxKey(s - {x});
      assert forall k :: k in s ==> k == x || k in s - {x};
      if x > m then x else m
  }

  /** IvCollection: a dictionary from IV value to the IvInfo of the latest
      frame seen with it. */
  class IvCollection {
    var ivs: map<nat, IvInfo>

    /** Every record is filed under its own IV. */
    ghost predicate Valid()
      reads this
    {
      forall iv :: iv in ivs ==> ivs[iv].iv == iv
    }

    constructor ()
      ensures Valid() && ivs == map[]
    {
      ivs := map[];
    }

    /** reset: forget every IV. */
    method Reset()
      modifies this
      ensures Valid() && ivs == map[]
    {
      ivs := map[];
    }

    /** track_used_iv: file the frame under its IV, replacing any earlier
        record for that IV and leaving the others alone. When the IV cannot
        be read the exception leaves the table untouched. */
    method TrackUsedIv(p: Frame) returns (r: Result<()>)
      requires Valid()
      modifies this
      ensures Valid()
      ensures r.Ok? <==> GetIv(p).Ok?
      ensures r.Raises? ==> ivs == old(ivs)
      ensures r.Ok? ==> ivs == old(ivs)[GetIv(p).value := MakeIvInfo(p).value]
    {
      match MakeIvInfo(p)
      case Raises(e) =>
        r := Raises(e);
      case Ok(info) =>
        ivs := ivs[info.iv := info];
        r := Ok(());
    }

    /** is_iv_reused: an untracked IV is never a reuse; a tracked one is
        judged against its latest record. */
    function IsIvReused(p: Frame): (r: Result<bool>)
      reads this
      ensures r.Ok? <==> GetIv(p).Ok?
      ensures GetIv(p).Ok? && GetIv(p).value !in ivs ==> r == Ok(false)
      ensures GetIv(p).Ok? && GetIv(p).value in ivs ==> r == IsReused(ivs[GetIv(p).value], p)
    {
      match GetIv(p)
      case Raises(e) => Raises(e)
      case Ok(iv) => if iv in ivs then IsReused(ivs[iv], p) else Ok(false)
    }

    /** is_new_iv: true on an empty table, otherwise when the IV exceeds the
        largest tracked one, that is, every tracked one. */
    ghost function IsNewIv(p: Frame): (r: Result<bool>)
      reads this
      ensures r.Ok? <==> GetIv(p).Ok?
      ensures r == Ok(true) <==> (GetIv(p).Ok? && forall k :: k in ivs ==> GetIv(p).value > k)
    {
      match GetIv(p)
      case Raises(e) => Raises(e)
      case Ok(iv) => if |ivs| == 0 then Ok(true) else Ok(iv > MaxKey(ivs.Keys))
    }
  }

  /** After the table tracked IVs 5, 9 and 3, IV 10 is new and IV 7 is not. */
  lemma NoveltyAfterFiveNineThree(c: IvCollection, p10: Frame, p7: Frame)
    requires c.ivs.Keys == {5, 9, 3}
    requires GetIv(p10) == Ok(10) && GetIv(p7) == Ok(7)
    ensures c.IsNewIv(p10) == Ok(true)
    ensures c.IsNewIv(p7) == Ok(false)
  {
    assert 9 in c.ivs;
  }

  /** Tracking a frame, then asking about a retransmission of it and about a
      later distinct frame reusing its IV. */
  method TrackThenJudge(a: Frame, b: Frame) returns (retransmission: Result<bool>, reuse: Result<bool>)
    requires GetIv(a).Ok? && GetIv(b) == GetIv(a) && SeqNum(b) != SeqNum(a) && b.time >= a.time + 1
    ensures retransmission == Ok(false) && reuse == Ok(true)
  {
    var c := new IvCollection();
    var _ := c.TrackUsedIv(a);
    retransmission := c.IsIvReused(a);
    reuse := c.IsIvReused(b);
  }
}
