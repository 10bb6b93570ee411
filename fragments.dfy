/** The fragment builder, create_fragments: one frame payload cut into a
    fixed number of 802.11 fragments (IEEE 802.11-2016, section 10.4). */
module Fragments {
  import opened Common
  import opened Frames

  /** `frag/Raw(payload)`: a copy of the header followed by a raw payload. */
  datatype Fragment = Fragment(header: Frame, payload: seq<bv8>)

  /** Python's `d[lo:hi]` for `0 <= lo <= hi`: indices past the end are
      clamped, so the slice may be short or empty. */
  function Slice(d: seq<bv8>, lo: nat, hi: nat): (r: seq<bv8>)
    requires lo <= hi
    ensures |r| <= hi - lo
    ensures lo <= |d| ==> r == d[lo..if hi <= |d| then hi else |d|]
    ensures lo >= |d| ==> r == []
  {
    if lo >= |d| then [] else if hi >= |d| then d[lo..] else d[lo..hi]
  }

  /** Adjacent slices concatenate to the slice spanning both. */
  lemma SliceAppend(d: seq<bv8>, a: nat, b: nat, c: nat)
    requires a <= b <= c
    ensures Slice(d, a, b) + Slice(d, b, c) == Slice(d, a, c)
  {
    if b < |d| {
      var hi := if c <= |d| then c else |d|;
      assert d[a..b] + d[b..hi] == d[a..hi];
    }
  }

  /** The payloads of the fragments, in fragment order. */
  function Payloads(frags: seq<Fragment>): seq<bv8>
  {
    if frags == [] then [] else Payloads(frags[..|frags| - 1]) + frags[|frags| - 1].payload
  }

  lemma PayloadsSnoc(frags: seq<Fragment>, f: Fragment)
    ensures Payloads(frags + [f]) == Payloads(frags) + f.payload
  {
    assert (frags + [f])[..|frags|] == frags;
  }

  /** `(len + n - 1) // n`, the size of every fragment but the last. */
  function FragSize(len: nat, n: nat): (r: nat)
    requires n >= 1
    ensures r * n >= len
    ensures len > 0 ==> (r - 1) * n < len
    ensures len == 0 ==> r == 0
  {
    var q := (len + n - 1) / n;
    assert len + n - 1 == q * n + (len + n - 1) % n;
    assert (q - 1) * n == q * n - n;
    q
  }

  lemma MulSucc(a: nat, b: nat)
    ensures a * (b + 1) == a * b + a
  {
  }

  /** The header of fragment i of n: a copy of `header` with i OR-ed into
      SC and, unless it is the last fragment, More Fragments set. Only SC and
      the flags octet differ from the header; the flags differ at most in
      More Fragments, and the last fragment keeps the header's flags. */
  function FragmentHeader(header: Frame, i: nat, n: nat): (h: Frame)
    ensures h == header.(sc := h.sc, fcField := h.fcField)
    ensures h.sc == BitOr(header.sc, i)
    ensures h.fcField & !MoreFragments == header.fcField & !MoreFragments
    ensures i < n - 1 ==> h.fcField & MoreFragments != 0
    ensures i >= n - 1 ==> h.fcField == header.fcField
  {
    var h := header.(sc := BitOr(header.sc, i));
    if i < n - 1 then h.(fcField := h.fcField | MoreFragments) else h
  }

  /** The payload of fragment i of n: `data[fragsize * i : fragsize * (i + 1)]`,
      never longer than `ceil(len(data) / n)`, and empty once it starts past
      the end of the data. */
  function FragmentPayload(data: seq<bv8>, i: nat, n: nat): (r: seq<bv8>)
    requires n >= 1
    ensures |r| <= FragSize(|data|, n)
    ensures FragSize(|data|, n) * i >= |data| ==> r == []
    ensures FragSize(|data|, n) * (i + 1) <= |data| ==> |r| == FragSize(|data|, n)
  {
    var fs := FragSize(|data|, n);
    Slice(data, fs * i, fs * i + fs)
  }

  /** Fragment i of n: its header numbered i, its payload the i-th slice. */
  function FragmentAt(header: Frame, data: seq<bv8>, i: nat, n: nat): (f: Fragment)
    requires n >= 1
    ensures f.header.sc == BitOr(header.sc, i)
    ensures |f.payload| <= FragSize(|data|, n)
  {
    Fragment(FragmentHeader(header, i, n), FragmentPayload(data, i, n))
  }

  /** The first k of n fragments, in order. */
  function FragmentsUpTo(header: Frame, data: seq<bv8>, k: nat, n: nat): (r: seq<Fragment>)
    requires n >= 1
    ensures |r| == k
    ensures forall j :: 0 <= j < k ==> r[j] == FragmentAt(header, data, j, n)
  {
    if k == 0 then [] else FragmentsUpTo(header, data, k - 1, n) + [FragmentAt(header, data, k - 1, n)]
  }

  /** create_fragments(header, data, num_frags). `num_frags == 0` divides by
      zero and a negative count makes `range` empty; otherwise there are
      exactly num_frags fragments, built from copies of the header, and their
      payloads put back together give `data`. */
  method CreateFragments(header: Frame, data: seq<bv8>, numFrags: int) returns (r: Result<seq<Fragment>>)
    ensures r.Raises? <==> numFrags == 0
    ensures numFrags == 0 ==> r == Raises(ZeroDivisionError)
    ensures numFrags < 0 ==> r == Ok([])
    ensures numFrags > 0 ==> r.Ok? && |r.value| == numFrags
    ensures numFrags > 0 ==> Payloads(r.value) == data
    ensures numFrags > 0 ==> forall i :: 0 <= i < numFrags ==> r.value[i] == FragmentAt(header, data, i, numFrags)
  {
    if numFrags == 0 {
      return Raises(ZeroDivisionError);
    }
    if numFrags < 0 {
      return Ok([]);
    }
    var fragsize := FragSize(|data|, numFrags);
    var fragments: seq<Fragment> := [];
    var i := 0;
    while i < numFrags
      invariant 0 <= i <= numFrags
      invariant Payloads(fragments) == Slice(data, 0, fragsize * i)
      invariant fragments == FragmentsUpTo(header, data, i, numFrags)
    {
      var f := MakeFragment(header, data, i, numFrags, fragsize);
      FragmentStep(data, fragments, i, fragsize, f);
      fragments := fragments + [f];
      i := i + 1;
    }
    assert Slice(data, 0, fragsize * numFrags) == data by {
      assert data[0..|data|] == data;
    }
    r := Ok(fragments);
  }

  /** The body of the loop of create_fragments: a copy of the header with
      i OR-ed into SC and More Fragments set unless i is the last, carrying
      `data[fragsize * i : fragsize * (i + 1)]`. */
  method MakeFragment(header: Frame, data: seq<bv8>, i: nat, numFrags: nat, fragsize: nat)
    returns (f: Fragment)
    requires numFrags >= 1 && fragsize == FragSize(|data|, numFrags)
    ensures f == FragmentAt(header, data, i, numFrags)
    ensures f.payload == Slice(data, fragsize * i, fragsize * i + fragsize)
  {
    var frag := header;
    frag := frag.(sc := BitOr(frag.sc, i));
    if i < numFrags - 1 {
      frag := frag.(fcField := frag.fcField | MoreFragments);
    }
    MulSucc(fragsize, i);
    var payload := Slice(data, fragsize * i, fragsize * (i + 1));
    f := Fragment(frag, payload);
  }

  /** One round of the loop of create_fragments: appending the fragment that
      covers the next `fs` octets keeps the fragments' payloads equal to the
      prefix of the data they cover. */
  lemma FragmentStep(data: seq<bv8>, frags: seq<Fragment>, i: nat, fs: nat, f: Fragment)
    requires Payloads(frags) == Slice(data, 0, fs * i)
    requires f.payload == Slice(data, fs * i, fs * i + fs)
    ensures Payloads(frags + [f]) == Slice(data, 0, fs * (i + 1))
  {
    MulSucc(fs, i);
    SliceAppend(data, 0, fs * i, fs * i + fs);
    PayloadsSnoc(frags, f);
  }

  /** With the fragment-number bits of the header clear, fragment i below 16
      keeps the header's sequence number and carries fragment number i. */
  lemma FragmentNumbering(h: Frame, i: nat, n: nat)
    requires h.sc % 16 == 0 && i < 16
    ensures SeqNum(FragmentHeader(h, i, n)) == SeqNum(h)
    ensures FragNum(FragmentHeader(h, i, n)) == i
  {
    assert Pow2(4) == 16;
    BitOrIntoZeroLowBits(h.sc, i, 4);
  }

  /** The sequence number survives whatever the header's fragment bits hold. */
  lemma FragmentKeepsSeqNum(h: Frame, i: nat, n: nat)
    requires i < 16
    ensures SeqNum(FragmentHeader(h, i, n)) == SeqNum(h)
  {
    assert Pow2(4) == 16;
    BitOrLow(h.sc, i, 4);
  }

  /** A 16-bit SC with an index below 65536 still fits the 16-bit field. */
  lemma FragmentScFits(h: Frame, i: nat, n: nat)
    requires h.sc < 0x1_0000 && i < 0x1_0000
    ensures FragmentHeader(h, i, n).sc < 0x1_0000
  {
    assert Pow2(4) == 0x10;
    assert Pow2(8) == 0x100 by { assert Pow2(5) == 0x20 && Pow2(6) == 0x40 && Pow2(7) == 0x80; }
    assert Pow2(12) == 0x1000 by { assert Pow2(9) == 0x200 && Pow2(10) == 0x400 && Pow2(11) == 0x800; }
    assert Pow2(16) == 0x1_0000 by { assert Pow2(13) == 0x2000 && Pow2(14) == 0x4000 && Pow2(15) == 0x8000; }
    BitOrBelow(h.sc, i, 16);
  }
}
