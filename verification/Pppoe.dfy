/**
 The PPPoE relay tag of rtw_br_ext.c. The bridge folds a client's MAC into the Relay-Session-Id tag
 of the discovery packets it forwards, and reads it back out of the answers. The tag layout is
 Appendix A of RFC 2516.
 */
module Pppoe {
  import opened Common
  import opened Elements

  const PPPOE_LENGTH_AT := 18
  const PPPOE_TAGS_AT := 20
  const TAG_HDR_LEN := 4
  const MAGIC_CODE_LEN := 2
  const RTL_RELAY_TAG_LEN := 6
  const TAG_BUF_SIZE := 40
  const PTT_RELAY_SID := 0x0110
  const MAGIC_CODE: seq<u8> := [0x81, 0x86]
  const MAX_SKB := PPPOE_TAGS_AT + 65535

  datatype RawTag = Tag(typ: nat, data: seq<u8>)

  type Tag = t: RawTag | t.typ < 0x10000 && |t.data| < 0x10000 witness Tag(0, [])

  function Num16(hi: int, lo: int): int {
    hi * 256 + lo
  }

  /** A 16-bit number in network byte order. */
  function U16(n: nat): (s: seq<u8>)
    requires n < 0x10000
    ensures |s| == 2 && Num16(s[0], s[1]) == n
  {
    [n / 256, n % 256]
  }

  function TagWire(t: Tag): seq<u8> {
    U16(t.typ) + U16(|t.data|) + t.data
  }

  function EncodeTags(ts: seq<Tag>): seq<u8> {
    if ts == [] then [] else TagWire(ts[0]) + EncodeTags(ts[1..])
  }

  function TagOff(ts: seq<Tag>, k: nat): nat
    requires k <= |ts|
  {
    |EncodeTags(ts[..k])|
  }

  function FirstTag(ts: seq<Tag>, typ: nat): (k: nat)
    ensures k <= |ts|
    ensures k < |ts| ==> ts[k].typ == typ
    ensures forall j :: 0 <= j < k ==> ts[j].typ != typ
  {
    if ts == [] || ts[0].typ == typ then 0 else 1 + FirstTag(ts[1..], typ)
  }

  lemma {:induction false} FirstTagIs(ts: seq<Tag>, typ: nat, k: nat)
    requires k <= |ts| && forall j :: 0 <= j < k ==> ts[j].typ != typ
    requires k < |ts| ==> ts[k].typ == typ
    ensures FirstTag(ts, typ) == k
  {
  }

  // ----- what the bridge does to the tags -----

  function RelayTag(mac: Mac, was: seq<u8>): Tag
    requires |was| <= TAG_BUF_SIZE
  {
    Tag(PTT_RELAY_SID, MAGIC_CODE + mac + was)
  }

  predicate HasOldTag(ts: seq<Tag>) {
    FirstTag(ts, PTT_RELAY_SID) < |ts|
  }

  function OldData(ts: seq<Tag>): seq<u8> {
    var k := FirstTag(ts, PTT_RELAY_SID);
    if k < |ts| then ts[k].data else []
  }

  function OtherTags(ts: seq<Tag>): seq<Tag> {
    var k := FirstTag(ts, PTT_RELAY_SID);
    if k < |ts| then ts[..k] + ts[k + 1..] else ts
  }

  /** The old relay tag does not fit into tag_buf with the header, the magic code and the MAC. */
  predicate OldTagTooLong(ts: seq<Tag>) {
    |OldData(ts)| + TAG_HDR_LEN + MAGIC_CODE_LEN + RTL_RELAY_TAG_LEN > TAG_BUF_SIZE
  }

  /** PADI and PADR on the way out: one relay tag in front, holding the MAC and the old relay tag's data. */
  function Inserted(ts: seq<Tag>, mac: Mac): seq<Tag>
    requires !OldTagTooLong(ts)
  {
    [RelayTag(mac, OldData(ts))] + OtherTags(ts)
  }

  datatype Strip = Strip(mac: Mac, tags: seq<Tag>)

  /** PADO and PADS on the way in. */
  function Stripped(ts: seq<Tag>): Option<Strip> {
    var k := FirstTag(ts, PTT_RELAY_SID);
    if k == |ts| then None
    else
      var data := ts[k].data;
      if |data| < MAGIC_CODE_LEN + RTL_RELAY_TAG_LEN || data[..2] != MAGIC_CODE then None
      else Some(Strip(data[2..8],
                      if |data| == 8 then ts[..k] + ts[k + 1..] else ts[k := Tag(PTT_RELAY_SID, data[8..])]))
  }

  predicate NoRelay(ts: seq<Tag>) {
    forall t :: t in ts ==> t.typ != PTT_RELAY_SID
  }

  /**
   Wherever the server puts the relay tag in its answer, stripping yields the client's MAC, leaves the
   tags before and after it alone and puts the old relay tag back in its place, unless that was empty.
   */
  lemma StripEcho(pre: seq<Tag>, mac: Mac, was: seq<u8>, post: seq<Tag>)
    requires NoRelay(pre) && |was| <= TAG_BUF_SIZE
    ensures Stripped(pre + [RelayTag(mac, was)] + post) ==
              Some(Strip(mac, pre + (if was == [] then [] else [Tag(PTT_RELAY_SID, was)]) + post))
  {
    hide FirstTag;
    var relay := RelayTag(mac, was);
    var ts := pre + [relay] + post;
    forall j | 0 <= j < |pre| ensures ts[j].typ != PTT_RELAY_SID {
      assert ts[j] == pre[j] && pre[j] in pre;
    }
    FirstTagIs(ts, PTT_RELAY_SID, |pre|);
    RelayData(mac, was);
    assert ts[..|pre|] == pre && ts[|pre|] == relay && ts[|pre| + 1..] == post;
    if was != [] {
      assert ts[|pre| := Tag(PTT_RELAY_SID, was)] == pre + [Tag(PTT_RELAY_SID, was)] + post;
    } else {
      assert pre + [] + post == pre + post;
    }
  }

  lemma RelayData(mac: Mac, was: seq<u8>)
    requires |was| <= TAG_BUF_SIZE
    ensures var data := RelayTag(mac, was).data;
            |data| == 8 + |was| && data[..2] == MAGIC_CODE && data[2..8] == mac && data[8..] == was
  {
  }

  /** The tags with the old relay tag, if there was one, moved to the front. */
  function OldFirst(ts: seq<Tag>): seq<Tag> {
    if HasOldTag(ts) then [Tag(PTT_RELAY_SID, OldData(ts))] + OtherTags(ts) else ts
  }

  /** Stripping the echo of what was inserted gives back the MAC, and all tags unless an old relay tag was empty. */
  lemma RelayRoundTrip(ts: seq<Tag>, mac: Mac)
    requires !OldTagTooLong(ts)
    ensures Stripped(Inserted(ts, mac)).Some? && Stripped(Inserted(ts, mac)).value.mac == mac
    ensures Stripped(Inserted(ts, mac)).value.tags == OldFirst(ts) <==> !(HasOldTag(ts) && OldData(ts) == [])
  {
    hide FirstTag, Stripped, RelayTag;
    var relay, rest := RelayTag(mac, OldData(ts)), OtherTags(ts);
    StripEcho([], mac, OldData(ts), rest);
    assert [] + [relay] + rest == [relay] + rest;
    if OldData(ts) == [] {
      assert [] + [] + rest == rest;
      assert HasOldTag(ts) ==> |rest| != |OldFirst(ts)|;
    } else {
      var was: seq<Tag> := [Tag(PTT_RELAY_SID, OldData(ts))];
      assert [] + was + rest == was + rest;
    }
  }

  // ----- the packet -----

  lemma {:induction false} TagsConcat(a: seq<Tag>, b: seq<Tag>)
    ensures EncodeTags(a + b) == EncodeTags(a) + EncodeTags(b)
  {
    hide TagWire;
    if a == [] {
      assert a + b == b;
    } else {
      TagsConcat(a[1..], b);
      assert (a + b)[0] == a[0] && (a + b)[1..] == a[1..] + b;
    }
  }

  lemma TagsOne(t: Tag)
    ensures EncodeTags([t]) == TagWire(t) && |TagWire(t)| == TAG_HDR_LEN + |t.data|
  {
    assert [t][1..] == [];
  }

  /** The bytes around tag k. */
  lemma TagAt(ts: seq<Tag>, k: nat)
    requires k < |ts|
    ensures EncodeTags(ts) == EncodeTags(ts[..k]) + TagWire(ts[k]) + EncodeTags(ts[k + 1..])
    ensures TagOff(ts, k) + TAG_HDR_LEN + |ts[k].data| == TagOff(ts, k + 1) <= |EncodeTags(ts)|
  {
    hide EncodeTags, TagWire;
    assert ts[..k + 1] == ts[..k] + [ts[k]];
    assert ts == ts[..k + 1] + ts[k + 1..];
    TagsConcat(ts[..k], [ts[k]]);
    TagsConcat(ts[..k + 1], ts[k + 1..]);
    TagsOne(ts[k]);
  }

  lemma TagSplit(ts: seq<Tag>, k: nat)
    requires k < |ts|
    ensures TagOff(ts, k) <= TagOff(ts, k + 1) <= |EncodeTags(ts)|
    ensures EncodeTags(ts)[..TagOff(ts, k)] == EncodeTags(ts[..k])
    ensures EncodeTags(ts)[TagOff(ts, k + 1)..] == EncodeTags(ts[k + 1..])
  {
    hide EncodeTags, TagWire;
    TagAt(ts, k);
    TagsOne(ts[k]);
  }

  lemma TagOffEnds(ts: seq<Tag>)
    ensures TagOff(ts, 0) == 0 && TagOff(ts, |ts|) == |EncodeTags(ts)|
  {
    assert ts[..|ts|] == ts;
  }

  /** A discovery frame with these tags: their length is in the header, their bytes behind it, anything after that. */
  predicate IsFrame(d: seq<u8>, ts: seq<Tag>) {
    var n := |EncodeTags(ts)|;
    && n < 0x10000 && PPPOE_TAGS_AT + n <= |d|
    && d[PPPOE_LENGTH_AT..PPPOE_TAGS_AT] == U16(n)
    && d[PPPOE_TAGS_AT..PPPOE_TAGS_AT + n] == EncodeTags(ts)
  }

  /**
   On the wire: the tags are at byte 20 and their length at 18; the relay tag in front has type 0x0110 and
   holds 0x8186, the client's MAC and the old tag's data, which may be at most 28 bytes long.
   */
  lemma RelayOnWire(d: seq<u8>, ts: seq<Tag>, mac: Mac)
    ensures OldTagTooLong(ts) <==> |OldData(ts)| > 28
    ensures !OldTagTooLong(ts) && IsFrame(d, Inserted(ts, mac)) ==>
              var was, rest := OldData(ts), EncodeTags(OtherTags(ts));
              && 32 + |was| + |rest| <= |d| && (d[18] as int) * 256 + (d[19] as int) == 12 + |was| + |rest|
              && d[20..32 + |was|] == [0x01, 0x10, 0x00, 8 + |was|, 0x81, 0x86] + mac + was
              && d[32 + |was|..32 + |was| + |rest|] == rest
  {
    if !OldTagTooLong(ts) && IsFrame(d, Inserted(ts, mac)) {
      RelayBytes(d, OtherTags(ts), mac, OldData(ts));
    }
  }

  lemma RelayBytes(d: seq<u8>, others: seq<Tag>, mac: Mac, was: seq<u8>)
    requires |was| <= 28 && IsFrame(d, [RelayTag(mac, was)] + others)
    ensures var rest := EncodeTags(others);
            && 32 + |was| + |rest| <= |d| && (d[18] as int) * 256 + (d[19] as int) == 12 + |was| + |rest|
            && d[20..32 + |was|] == [0x01, 0x10, 0x00, 8 + |was|, 0x81, 0x86] + mac + was
            && d[32 + |was|..32 + |was| + |rest|] == rest
  {
    hide EncodeTags, TagWire, RelayTag, IsFrame;
    var relay, rest := RelayTag(mac, was), EncodeTags(others);
    var ts := [relay] + others;
    TagsConcat([relay], others);
    TagsOne(relay);
    RelayWire(mac, was);
    FrameLength(d, ts);
    FrameTags(d, ts);
    var bytes := d[20..20 + |EncodeTags(ts)|];
    assert bytes[..12 + |was|] == TagWire(relay) && bytes[12 + |was|..] == rest;
  }

  lemma FrameTags(d: seq<u8>, ts: seq<Tag>)
    requires IsFrame(d, ts)
    ensures 20 + |EncodeTags(ts)| <= |d| && d[20..20 + |EncodeTags(ts)|] == EncodeTags(ts)
  {
    hide EncodeTags;
  }

  lemma RelayWire(mac: Mac, was: seq<u8>)
    requires |was| <= 28
    ensures TagWire(RelayTag(mac, was)) == [0x01, 0x10, 0x00, 8 + |was|, 0x81, 0x86] + mac + was
  {
    var n := 8 + |was|;
    assert U16(0x0110) == [0x01, 0x10] && U16(n) == [0x00, n];
  }

  /** The frame with its length field set. */
  function WithLength(d: seq<u8>, n: nat): (r: seq<u8>)
    requires n < 0x10000 && PPPOE_TAGS_AT <= |d|
    ensures |r| == |d|
  {
    d[..PPPOE_LENGTH_AT] + U16(n) + d[PPPOE_TAGS_AT..]
  }

  /** The header of tag k. */
  lemma TagHeader(d: seq<u8>, ts: seq<Tag>, k: nat)
    requires IsFrame(d, ts) && k < |ts|
    ensures var p, t := PPPOE_TAGS_AT + TagOff(ts, k), ts[k];
            && p + TAG_HDR_LEN + |t.data| == PPPOE_TAGS_AT + TagOff(ts, k + 1)
            && p + TAG_HDR_LEN + |t.data| <= PPPOE_TAGS_AT + |EncodeTags(ts)| <= |d|
            && Num16(d[p], d[p + 1]) == t.typ && Num16(d[p + 2], d[p + 3]) == |t.data|
            && d[p + TAG_HDR_LEN..p + TAG_HDR_LEN + |t.data|] == t.data
  {
    hide EncodeTags, U16;
    TagAt(ts, k);
    var p, n := TagOff(ts, k), |EncodeTags(ts)|;
    var bytes := d[PPPOE_TAGS_AT..PPPOE_TAGS_AT + n];
    assert bytes[p..p + TAG_HDR_LEN + |ts[k].data|] == TagWire(ts[k]);
    SubSlice(d, PPPOE_TAGS_AT, PPPOE_TAGS_AT + n, p, p + TAG_HDR_LEN + |ts[k].data|);
    var w := d[PPPOE_TAGS_AT + p..PPPOE_TAGS_AT + p + TAG_HDR_LEN + |ts[k].data|];
    assert w == TagWire(ts[k]);
    assert w[0] == U16(ts[k].typ)[0] && w[1] == U16(ts[k].typ)[1];
    assert w[2] == U16(|ts[k].data|)[0] && w[3] == U16(|ts[k].data|)[1];
    assert w[4..] == ts[k].data;
  }

  /** Where the parts of a frame lie. */
  lemma Glue(front: seq<u8>, len: seq<u8>, a: seq<u8>, b: seq<u8>, back: seq<u8>, m: nat)
    requires |front| == PPPOE_LENGTH_AT && |len| == 2 && m <= |back|
    ensures var r := front + len + a + b + back;
            && r[..PPPOE_LENGTH_AT] == front && r[PPPOE_LENGTH_AT..PPPOE_TAGS_AT] == len
            && r[PPPOE_TAGS_AT..PPPOE_TAGS_AT + |a| + |b| + m] == a + b + back[..m]
            && r[PPPOE_TAGS_AT + |a| + |b| + m..] == back[m..]
  {
    var r := front + len + a + b + back;
    assert front + len + a + b == front + len + (a + b);
    assert r == front + len + (a + b) + back;
  }

  lemma SplitTail(d: seq<u8>, q: nat, end: nat)
    requires q <= end <= |d|
    ensures d[q..][..end - q] == d[q..end] && d[q..][end - q..] == d[end..]
  {
  }

  lemma CutBytes(d: seq<u8>, p: nat, q: nat, m: nat)
    requires PPPOE_TAGS_AT <= p <= q <= |d| && m < 0x10000
    ensures WithLength(d[..p] + d[q..], m) == d[..PPPOE_LENGTH_AT] + U16(m) + d[PPPOE_TAGS_AT..p] + [] + d[q..]
  {
    hide U16;
    var cut := d[..p] + d[q..];
    assert cut[..PPPOE_LENGTH_AT] == d[..PPPOE_LENGTH_AT];
    assert cut[PPPOE_TAGS_AT..] == d[PPPOE_TAGS_AT..p] + d[q..];
    assert d[..PPPOE_LENGTH_AT] + U16(m) + d[PPPOE_TAGS_AT..p] + [] ==
           d[..PPPOE_LENGTH_AT] + U16(m) + d[PPPOE_TAGS_AT..p];
  }

  /** The bytes before tag k and those behind it. */
  lemma AroundTag(d: seq<u8>, ts: seq<Tag>, k: nat)
    requires IsFrame(d, ts) && k < |ts|
    ensures var p, q := PPPOE_TAGS_AT + TagOff(ts, k), PPPOE_TAGS_AT + TagOff(ts, k + 1);
            var end := PPPOE_TAGS_AT + |EncodeTags(ts)|;
            && p <= q <= end <= |d|
            && d[PPPOE_TAGS_AT..p] + d[q..end] == EncodeTags(ts[..k] + ts[k + 1..])
  {
    hide EncodeTags, TagWire, U16;
    TagSplit(ts, k);
    TagsConcat(ts[..k], ts[k + 1..]);
    var a, b, n := TagOff(ts, k), TagOff(ts, k + 1), |EncodeTags(ts)|;
    SplitSlice(d, PPPOE_TAGS_AT, PPPOE_TAGS_AT + a, PPPOE_TAGS_AT + n);
    SplitSlice(d, PPPOE_TAGS_AT, PPPOE_TAGS_AT + b, PPPOE_TAGS_AT + n);
  }

  /** A frame with tag k cut out and the length corrected is a frame with the other tags. */
  lemma TagCut(d: seq<u8>, ts: seq<Tag>, k: nat)
    requires IsFrame(d, ts) && k < |ts|
    ensures var p, q, n := PPPOE_TAGS_AT + TagOff(ts, k), PPPOE_TAGS_AT + TagOff(ts, k + 1), |EncodeTags(ts)|;
            && p <= q <= |d| && q - p <= n
            && IsFrame(WithLength(d[..p] + d[q..], n - (q - p)), ts[..k] + ts[k + 1..])
            && |EncodeTags(ts[..k] + ts[k + 1..])| == n - (q - p)
            && WithLength(d[..p] + d[q..], n - (q - p))[PPPOE_TAGS_AT + n - (q - p)..] == d[PPPOE_TAGS_AT + n..]
  {
    hide EncodeTags, U16, WithLength, TagOff;
    AroundTag(d, ts, k);
    var p, q, n := PPPOE_TAGS_AT + TagOff(ts, k), PPPOE_TAGS_AT + TagOff(ts, k + 1), |EncodeTags(ts)|;
    CutBytes(d, p, q, n - (q - p));
    Glue(d[..PPPOE_LENGTH_AT], U16(n - (q - p)), d[PPPOE_TAGS_AT..p], [], d[q..], PPPOE_TAGS_AT + n - q);
    SplitTail(d, q, PPPOE_TAGS_AT + n);
    assert d[PPPOE_TAGS_AT..p] + [] + d[q..PPPOE_TAGS_AT + n] == d[PPPOE_TAGS_AT..p] + d[q..PPPOE_TAGS_AT + n];
  }

  /** The first x bytes of tag k's data cut out, both lengths corrected. */
  function TagTrimmed(d: seq<u8>, n: nat, p: nat, len: nat, x: nat): seq<u8>
    requires PPPOE_TAGS_AT <= p && p + TAG_HDR_LEN + x <= |d| && x <= len < 0x10000 && x <= n < 0x10000
  {
    d[..PPPOE_LENGTH_AT] + U16(n - x) + d[PPPOE_TAGS_AT..p + 2] + U16(len - x) + d[p + TAG_HDR_LEN + x..]
  }

  /** The bytes up to the type of tag k, and those from byte x of its data on. */
  lemma TagParts(d: seq<u8>, ts: seq<Tag>, k: nat, x: nat)
    requires IsFrame(d, ts) && k < |ts| && x <= |ts[k].data|
    ensures var p, n, t := PPPOE_TAGS_AT + TagOff(ts, k), |EncodeTags(ts)|, ts[k];
            && p + TAG_HDR_LEN + |t.data| <= PPPOE_TAGS_AT + n <= |d|
            && d[PPPOE_TAGS_AT..p + 2] == EncodeTags(ts[..k]) + U16(t.typ)
            && d[p + TAG_HDR_LEN + x..PPPOE_TAGS_AT + n] == t.data[x..] + EncodeTags(ts[k + 1..])
  {
    hide EncodeTags, U16;
    var t, n, a := ts[k], |EncodeTags(ts)|, TagOff(ts, k);
    TagAt(ts, k);
    TagsOne(t);
    var bytes := d[PPPOE_TAGS_AT..PPPOE_TAGS_AT + n];
    assert bytes[..a + 2] == EncodeTags(ts[..k]) + U16(t.typ);
    assert bytes[a + TAG_HDR_LEN + x..] == t.data[x..] + EncodeTags(ts[k + 1..]);
    SubSlice(d, PPPOE_TAGS_AT, PPPOE_TAGS_AT + n, 0, a + 2);
    SplitSlice(d, PPPOE_TAGS_AT, PPPOE_TAGS_AT + a + TAG_HDR_LEN + x, PPPOE_TAGS_AT + n);
  }

  lemma TrimmedWire(ts: seq<Tag>, k: nat, x: nat)
    requires k < |ts| && x <= |ts[k].data|
    ensures var t := ts[k];
            EncodeTags(ts[k := Tag(t.typ, t.data[x..])]) ==
              EncodeTags(ts[..k]) + U16(t.typ) + U16(|t.data| - x) + (t.data[x..] + EncodeTags(ts[k + 1..]))
    ensures |EncodeTags(ts[k := Tag(ts[k].typ, ts[k].data[x..])])| == |EncodeTags(ts)| - x
  {
    hide EncodeTags, U16;
    var t: Tag := Tag(ts[k].typ, ts[k].data[x..]);
    var ts' := ts[k := t];
    TagAt(ts, k);
    TagAt(ts', k);
    TagsOne(ts[k]);
    TagsOne(t);
    assert ts'[..k] == ts[..k] && ts'[k + 1..] == ts[k + 1..];
  }

  lemma TagTrim(d: seq<u8>, ts: seq<Tag>, k: nat, x: nat)
    requires IsFrame(d, ts) && k < |ts| && x <= |ts[k].data|
    ensures var p, n, t := PPPOE_TAGS_AT + TagOff(ts, k), |EncodeTags(ts)|, ts[k];
            && p + TAG_HDR_LEN + |t.data| <= |d| && |t.data| <= n
            && var ts', d' := ts[k := Tag(t.typ, t.data[x..])], TagTrimmed(d, n, p, |t.data|, x);
            IsFrame(d', ts') && |EncodeTags(ts')| == n - x && d'[PPPOE_TAGS_AT + n - x..] == d[PPPOE_TAGS_AT + n..]
  {
    hide EncodeTags, U16;
    var t, n, a := ts[k], |EncodeTags(ts)|, TagOff(ts, k);
    TagAt(ts, k);
    TagParts(d, ts, k, x);
    TrimmedWire(ts, k, x);
    var p := PPPOE_TAGS_AT + a;
    var q := p + TAG_HDR_LEN + x;
    var end := PPPOE_TAGS_AT + n;
    Glue(d[..PPPOE_LENGTH_AT], U16(n - x), d[PPPOE_TAGS_AT..p + 2], U16(|t.data| - x), d[q..], end - q);
    SplitTail(d, q, end);
  }

  /** A new first tag, the rest of the frame shifted up. */
  lemma TagPushed(d: seq<u8>, d': seq<u8>, ts: seq<Tag>, t: Tag)
    requires IsFrame(d, ts)
    requires var n, x := |EncodeTags(ts)|, TAG_HDR_LEN + |t.data|;
             && n + x < 0x10000 && PPPOE_TAGS_AT + n + x <= |d'|
             && d'[PPPOE_LENGTH_AT..PPPOE_TAGS_AT] == U16(n + x)
             && d'[PPPOE_TAGS_AT..PPPOE_TAGS_AT + x] == TagWire(t)
             && d'[PPPOE_TAGS_AT + x..PPPOE_TAGS_AT + x + n] == d[PPPOE_TAGS_AT..PPPOE_TAGS_AT + n]
    ensures IsFrame(d', [t] + ts)
  {
    hide EncodeTags, TagWire, U16;
    TagsConcat([t], ts);
    TagsOne(t);
    var n, x := |EncodeTags(ts)|, TAG_HDR_LEN + |t.data|;
    SplitSlice(d', PPPOE_TAGS_AT, PPPOE_TAGS_AT + x, PPPOE_TAGS_AT + x + n);
  }

  /** d' is d with the n bytes of its tags x further up. */
  predicate Moved(d: seq<u8>, d': seq<u8>, x: nat, n: nat) {
    && PPPOE_TAGS_AT + n <= |d| && PPPOE_TAGS_AT + x + n <= |d'|
    && (forall k :: 0 <= k < PPPOE_TAGS_AT ==> d'[k] == d[k])
    && (forall k :: PPPOE_TAGS_AT + x <= k < PPPOE_TAGS_AT + x + n ==> d'[k] == d[k - x])
  }

  /** A packet: the bytes in use of a buffer with room behind them. */
  class Skb {
    const buf: array<u8>
    var len: nat

    constructor (buf: array<u8>, len: nat)
      requires len <= buf.Length <= MAX_SKB
      ensures Valid() && this.buf == buf && Data() == buf[..len]
    {
      this.buf, this.len := buf, len;
    }

    ghost predicate Valid()
      reads this
    {
      len <= buf.Length <= MAX_SKB
    }

    ghost function Data(): seq<u8>
      requires Valid()
      reads this, buf
    {
      buf[..len]
    }

    /** __nat25_find_pppoe_tag */
    method FindTag(typ: nat, ghost ts: seq<Tag>) returns (pos: int)
      requires Valid() && IsFrame(Data(), ts)
      ensures FirstTag(ts, typ) == |ts| ==> pos == -1
      ensures FirstTag(ts, typ) < |ts| ==> pos == PPPOE_TAGS_AT + TagOff(ts, FirstTag(ts, typ))
    {
      hide EncodeTags, FirstTag, TagOff, IsFrame;
      FrameLength(Data(), ts);
      var length := Num16(buf[PPPOE_LENGTH_AT], buf[PPPOE_LENGTH_AT + 1]);
      var cur := 0;
      ghost var k := 0;
      TagOffEnds(ts);
      while cur < length
        invariant k <= |ts| && cur == TagOff(ts, k) <= length == |EncodeTags(ts)|
        invariant forall j :: 0 <= j < k ==> ts[j].typ != typ
        decreases length - cur
      {
        if k < |ts| {
          TagHeader(Data(), ts, k);
        }
        var at := PPPOE_TAGS_AT + cur;
        var tagType, tagLen := Num16(buf[at], buf[at + 1]), Num16(buf[at + 2], buf[at + 3]);
        if tagType == typ {
          FirstTagIs(ts, typ, k);
          return at;
        }
        cur := cur + TAG_HDR_LEN + tagLen;
        k := k + 1;
      }
      if k < |ts| {
        TagHeader(Data(), ts, k);
      }
      FirstTagIs(ts, typ, k);
      return -1;
    }

    /** skb_pull_and_merge: n bytes at src are taken out of the packet. */
    method PullAndMerge(src: nat, n: nat) returns (ok: bool)
      requires Valid()
      modifies this, buf
      ensures Valid() && ok == (src + n <= old(len))
      ensures Data() == if ok then old(Data()[..src] + Data()[src + n..]) else old(Data())
    {
      if src + n > len || len < n {
        return false;
      }
      var end := src + n;
      forall k | 0 <= k < len - end {
        buf[src + k] := buf[end + k];
      }
      len := len - n;
      return true;
    }

    /** ph->length = htons(n) */
    method SetLength(n: nat)
      requires Valid() && PPPOE_TAGS_AT <= len && n < 0x10000
      modifies buf
      ensures Data() == WithLength(old(Data()), n)
    {
      buf[PPPOE_LENGTH_AT], buf[PPPOE_LENGTH_AT + 1] := n / 256, n % 256;
    }

    /** Cut tag k out and correct the length. */
    method RemoveTag(pos: nat, tagLen: nat, ghost ts: seq<Tag>, ghost k: nat) returns (ok: bool)
      requires Valid() && IsFrame(Data(), ts) && k < |ts|
      requires pos == PPPOE_TAGS_AT + TagOff(ts, k) && tagLen == |ts[k].data|
      modifies this, buf
      ensures Valid() && ok && len == old(len) - TAG_HDR_LEN - tagLen
      ensures IsFrame(Data(), ts[..k] + ts[k + 1..])
      ensures Data()[..PPPOE_LENGTH_AT] == old(Data()[..PPPOE_LENGTH_AT])
      ensures Data()[PPPOE_TAGS_AT + |EncodeTags(ts[..k] + ts[k + 1..])|..] ==
                old(Data()[PPPOE_TAGS_AT + |EncodeTags(ts)|..])
    {
      hide EncodeTags, IsFrame, WithLength, U16;
      ghost var d := Data();
      FrameLength(d, ts);
      TagAt(ts, k);
      TagCut(d, ts, k);
      ok := PullAndMerge(pos, TAG_HDR_LEN + tagLen);
      if !ok {
        return false;
      }
      var length := Num16(buf[PPPOE_LENGTH_AT], buf[PPPOE_LENGTH_AT + 1]);
      assert Data()[..PPPOE_LENGTH_AT] == d[..PPPOE_LENGTH_AT] && Data()[..PPPOE_TAGS_AT] == d[..PPPOE_TAGS_AT];
      assert buf[PPPOE_LENGTH_AT] == Data()[PPPOE_LENGTH_AT] && buf[PPPOE_LENGTH_AT + 1] == Data()[PPPOE_LENGTH_AT + 1];
      LengthSet(Data(), length - TAG_HDR_LEN - tagLen);
      SetLength(length - TAG_HDR_LEN - tagLen);
    }

    /** skb_put and memmove: room for x bytes before the n tag bytes. */
    method MakeRoom(x: nat, n: nat)
      requires Valid() && PPPOE_TAGS_AT + n <= len && len + x <= buf.Length
      modifies this, buf
      ensures Valid() && len == old(len) + x && Moved(old(Data()), Data(), x, n)
    {
      len := len + x;
      forall k | PPPOE_TAGS_AT + x <= k < PPPOE_TAGS_AT + x + n {
        buf[k] := buf[k - x];
      }
    }

    method PutTag(tag: array<u8>, x: nat)
      requires Valid() && PPPOE_TAGS_AT + x <= len && x <= tag.Length && tag != buf
      modifies buf
      ensures Data() == old(Data()[..PPPOE_TAGS_AT]) + tag[..x] + old(Data()[PPPOE_TAGS_AT + x..])
    {
      forall k | PPPOE_TAGS_AT <= k < PPPOE_TAGS_AT + x {
        buf[k] := tag[k - PPPOE_TAGS_AT];
      }
    }

    /** __nat25_add_pppoe_tag, with tagLen for the host-order tag->tag_len. */
    method AddTag(tag: array<u8>, tagLen: nat, ghost ts: seq<Tag>, ghost t: Tag) returns (ret: int)
      requires Valid() && IsFrame(Data(), ts) && tag != buf
      requires TAG_HDR_LEN + tagLen <= tag.Length && tag[..TAG_HDR_LEN + tagLen] == TagWire(t) && tagLen == |t.data|
      modifies this, buf
      ensures Valid()
      ensures ret == if buf.Length - old(len) < TAG_HDR_LEN + tagLen then -1 else TAG_HDR_LEN + tagLen
      ensures ret == -1 ==> Data() == old(Data())
      ensures ret != -1 ==> len == old(len) + ret && IsFrame(Data(), [t] + ts)
                            && Data()[..PPPOE_LENGTH_AT] == old(Data()[..PPPOE_LENGTH_AT])
    {
      hide EncodeTags, TagWire, IsFrame, U16, WithLength, Moved;
      TagsOne(t);
      FrameLength(Data(), ts);
      ghost var was := Data();
      var dataLen := TAG_HDR_LEN + tagLen;
      if buf.Length - len < dataLen {
        return -1;
      }
      var length := Num16(buf[PPPOE_LENGTH_AT], buf[PPPOE_LENGTH_AT + 1]);
      MakeRoom(dataLen, length);
      ghost var roomy := Data();
      SetLength(length + dataLen);
      ghost var sized := Data();
      PutTag(tag, dataLen);
      ret := dataLen;
      Pushed(was, roomy, sized, Data(), ts, t);
    }

    /** The relay tag in tag_buf, once the old tag's data is in place. */
    method FillTag(tag: array<u8>, oldLen: nat)
      requires Valid() && 12 <= len && tag != buf && tag.Length == TAG_BUF_SIZE && oldLen <= TAG_BUF_SIZE - 12
      modifies tag
      ensures tag[..12 + oldLen] == TagWire(RelayTag(Data()[6..12], old(tag[12..12 + oldLen])))
    {
      ghost var was, mac := tag[12..12 + oldLen], Data()[6..12];
      tag[0], tag[1] := PTT_RELAY_SID / 256, PTT_RELAY_SID % 256;
      var size := MAGIC_CODE_LEN + RTL_RELAY_TAG_LEN + oldLen;
      tag[2], tag[3] := size / 256, size % 256;
      tag[4], tag[5] := MAGIC_CODE[0], MAGIC_CODE[1];
      forall k | 6 <= k < 12 {
        tag[k] := buf[k];
      }
      forall k | 0 <= k < 6 ensures tag[..][6 + k] == mac[k] {
        assert tag[6 + k] == buf[6 + k];
      }
      forall k | 0 <= k < oldLen ensures tag[..][12 + k] == was[k] {
        assert tag[12 + k] == old(tag[12 + k]);
      }
      TagBuf(tag[..], mac, was);
    }

    /** Copy the data of an old relay tag into tag_buf and delete the tag; -1 if it is too long. */
    method TakeOldTag(tag: array<u8>, ghost ts: seq<Tag>) returns (oldLen: int)
      requires Valid() && IsFrame(Data(), ts) && tag != buf && tag.Length == TAG_BUF_SIZE
      modifies this, buf, tag
      ensures Valid() && PPPOE_LENGTH_AT <= len && Data()[..PPPOE_LENGTH_AT] == old(Data()[..PPPOE_LENGTH_AT])
      ensures OldTagTooLong(ts) ==> oldLen == -1 && Data() == old(Data())
      ensures !OldTagTooLong(ts) ==>
                && oldLen == |OldData(ts)| && tag[12..12 + oldLen] == OldData(ts) && IsFrame(Data(), OtherTags(ts))
                && len == old(len) - if HasOldTag(ts) then TAG_HDR_LEN + oldLen else 0
    {
      hide EncodeTags, IsFrame, FirstTag, HasOldTag, OldData, OtherTags;
      FrameLength(Data(), ts);
      ghost var k := FirstTag(ts, PTT_RELAY_SID);
      OldTagIs(ts, k);
      var pOldTag := FindTag(PTT_RELAY_SID, ts);
      if pOldTag == -1 {
        return 0;
      }
      TagHeader(Data(), ts, k);
      oldLen := Num16(buf[pOldTag + 2], buf[pOldTag + 3]);
      if oldLen + TAG_HDR_LEN + MAGIC_CODE_LEN + RTL_RELAY_TAG_LEN > TAG_BUF_SIZE {
        return -1;
      }
      assert buf[pOldTag + TAG_HDR_LEN..pOldTag + TAG_HDR_LEN + oldLen] == ts[k].data;
      Memcpy(tag, 12, buf, pOldTag + TAG_HDR_LEN, oldLen);
      var ok := RemoveTag(pOldTag, oldLen, ts, k);
      if !ok {
        return -1;
      }
    }

    /** NAT25_INSERT for PADI and PADR with addPPPoETag set. */
    method InsertRelayTag(ghost ts: seq<Tag>) returns (ret: int)
      requires Valid() && IsFrame(Data(), ts)
      modifies this, buf
      ensures Valid() && PPPOE_LENGTH_AT <= len && Data()[..PPPOE_LENGTH_AT] == old(Data()[..PPPOE_LENGTH_AT])
      ensures OldTagTooLong(ts) ==> ret == -1 && Data() == old(Data())
      ensures !OldTagTooLong(ts) ==>
                var grow := if HasOldTag(ts) then 8 else 12;
                if buf.Length - old(len) >= grow
                then ret == 0 && len == old(len) + grow && IsFrame(Data(), Inserted(ts, old(Data()[6..12])))
                else ret == -1 && IsFrame(Data(), OtherTags(ts))
    {
      hide EncodeTags, IsFrame, HasOldTag, OldData, OtherTags, TagWire, RelayTag;
      FrameLength(Data(), ts);
      OldTagIs(ts, FirstTag(ts, PTT_RELAY_SID));
      ghost var head := Data()[..PPPOE_LENGTH_AT];
      assert head[6..12] == Data()[6..12];
      var tag := new u8[TAG_BUF_SIZE];
      var oldLen := TakeOldTag(tag, ts);
      if oldLen == -1 {
        return -1;
      }
      FrameLength(Data(), OtherTags(ts));
      assert Data()[6..12] == head[6..12];
      FillTag(tag, oldLen);
      ghost var t := RelayTag(head[6..12], OldData(ts));
      RelayData(head[6..12], OldData(ts));
      ret := AddTag(tag, MAGIC_CODE_LEN + RTL_RELAY_TAG_LEN + oldLen, OtherTags(ts), t);
      if ret < 0 {
        return -1;
      }
      ret := 0;
    }

    method SetDestination(from: nat)
      requires Valid() && 6 <= from && from + 6 <= len
      modifies buf
      ensures Data() == old(Data()[from..from + 6] + Data()[6..])
    {
      forall j | 0 <= j < ETH_ALEN {
        buf[j] := buf[from + j];
      }
    }

    /** The length of the tag at pos. */
    method SetTagLen(pos: nat, n: nat)
      requires Valid() && pos + TAG_HDR_LEN <= len && n < 0x10000
      modifies buf
      ensures Data() == old(Data()[..pos + 2]) + U16(n) + old(Data()[pos + 4..])
    {
      buf[pos + 2], buf[pos + 3] := n / 256, n % 256;
    }

    /** Take magic code and MAC out of tag k, which has more in it: skb_pull_and_merge behind the tag header. */
    method StripFront(ptr: nat, tagLen: nat, ghost ts: seq<Tag>, ghost k: nat) returns (ok: bool)
      requires Valid() && IsFrame(Data(), ts) && k < |ts| && tagLen == |ts[k].data| > 8
      requires ptr == PPPOE_TAGS_AT + TagOff(ts, k)
      modifies this, buf
      ensures Valid() && ok && IsFrame(Data(), ts[k := Tag(ts[k].typ, ts[k].data[8..])])
      ensures Data()[..PPPOE_LENGTH_AT] == old(Data()[..PPPOE_LENGTH_AT])
      ensures var tags := ts[k := Tag(ts[k].typ, ts[k].data[8..])];
              Data()[PPPOE_TAGS_AT + |EncodeTags(tags)|..] == old(Data()[PPPOE_TAGS_AT + |EncodeTags(ts)|..])
    {
      hide EncodeTags, IsFrame, WithLength, TagTrimmed, U16, TagWire, TagOff;
      ghost var d := Data();
      FrameLength(d, ts);
      TagTrim(d, ts, k, 8);
      var length := Num16(buf[PPPOE_LENGTH_AT], buf[PPPOE_LENGTH_AT + 1]);
      ok := PullAndMerge(ptr + TAG_HDR_LEN, 8);
      if !ok {
        return false;
      }
      TrimSteps(d, length, ptr, tagLen);
      SetLength(length - 8);
      SetTagLen(ptr, tagLen - 8);
    }

    /** The checks on the relay tag that was found; its length, -1 if it is not one of the bridge's. */
    method CheckRelay(ptr: nat, ghost ts: seq<Tag>, ghost k: nat) returns (tagLen: int)
      requires Valid() && IsFrame(Data(), ts) && k < |ts| && ptr == PPPOE_TAGS_AT + TagOff(ts, k)
      requires ts[k].typ == PTT_RELAY_SID
      ensures var data := ts[k].data;
              if |data| >= 8 && data[..2] == MAGIC_CODE
              then tagLen == |data| && ptr + 12 <= len && Data()[ptr + 6..ptr + 12] == data[2..8] else tagLen == -1
    {
      hide EncodeTags, IsFrame;
      TagHeader(Data(), ts, k);
      var tagType := Num16(buf[ptr], buf[ptr + 1]);
      tagLen := Num16(buf[ptr + 2], buf[ptr + 3]);
      if tagType != PTT_RELAY_SID || tagLen < MAGIC_CODE_LEN + RTL_RELAY_TAG_LEN {
        return -1;
      }
      RelayHeader(Data(), ts[k].data, ptr + TAG_HDR_LEN);
      if buf[ptr + 4] != MAGIC_CODE[0] || buf[ptr + 5] != MAGIC_CODE[1] {
        return -1;
      }
    }

    /** NAT25_LOOKUP for PADO and PADS with addPPPoETag set. */
    method StripRelayTag(ghost ts: seq<Tag>) returns (ret: int)
      requires Valid() && IsFrame(Data(), ts)
      modifies this, buf
      ensures Valid() && (Stripped(ts) == None ==> ret == -1 && Data() == old(Data()))
      ensures Stripped(ts).Some? ==>
                var (mac, tags) := (Stripped(ts).value.mac, Stripped(ts).value.tags);
                var n, n' := |EncodeTags(ts)|, |EncodeTags(tags)|;
                && ret == 0 && IsFrame(Data(), tags) && Data()[..6] == mac
                && Data()[6..PPPOE_LENGTH_AT] == old(Data()[6..PPPOE_LENGTH_AT])
                && Data()[PPPOE_TAGS_AT + n'..] == old(Data()[PPPOE_TAGS_AT + n..])
    {
      hide EncodeTags, IsFrame, FirstTag;
      ghost var k := FirstTag(ts, PTT_RELAY_SID);
      FrameLength(Data(), ts);
      var ptr := FindTag(PTT_RELAY_SID, ts);
      if ptr == -1 {
        return -1;
      }
      var tagLen := CheckRelay(ptr, ts, k);
      if tagLen == -1 {
        return -1;
      }
      ghost var data := ts[k].data;
      SetDestination(ptr + 6);
      HeadIsFree(old(Data()), Data(), ts);
      ghost var head := Data()[..PPPOE_LENGTH_AT];
      assert head[..6] == data[2..8] && head[6..] == Data()[6..PPPOE_LENGTH_AT];
      var ok;
      if tagLen > 8 {
        ok := StripFront(ptr, tagLen, ts, k);
      } else {
        ok := RemoveTag(ptr, tagLen, ts, k);
      }
      if !ok {
        return -1;
      }
      FrameLength(Data(), Stripped(ts).value.tags);
      assert Data()[..6] == head[..6] && Data()[6..PPPOE_LENGTH_AT] == head[6..];
      ret := 0;
    }
  }

  lemma RelayHeader(d: seq<u8>, data: seq<u8>, p: nat)
    requires p + |data| <= |d| && d[p..p + |data|] == data && |data| >= 8
    ensures d[p] == data[0] && d[p + 1] == data[1] && d[p + 2..p + 8] == data[2..8]
    ensures data[..2] == [data[0], data[1]]
  {
    var s := d[p..p + |data|];
    assert s[0] == d[p] && s[1] == d[p + 1];
    SubSlice(d, p, p + |data|, 2, 8);
  }

  /** Only the bytes from the length field on make a frame. */
  lemma HeadIsFree(d: seq<u8>, d': seq<u8>, ts: seq<Tag>)
    requires IsFrame(d, ts) && |d| == |d'| && d[6..] == d'[6..]
    ensures IsFrame(d', ts)
    ensures d'[6..PPPOE_LENGTH_AT] == d[6..PPPOE_LENGTH_AT]
    ensures d'[PPPOE_TAGS_AT + |EncodeTags(ts)|..] == d[PPPOE_TAGS_AT + |EncodeTags(ts)|..]
  {
    hide EncodeTags, U16;
    var n := |EncodeTags(ts)|;
    forall k | 6 <= k < |d| ensures d[k] == d'[k] {
      assert d[6..][k - 6] == d'[6..][k - 6];
    }
    assert d[PPPOE_LENGTH_AT..PPPOE_TAGS_AT] == d'[PPPOE_LENGTH_AT..PPPOE_TAGS_AT];
    assert d[PPPOE_TAGS_AT..PPPOE_TAGS_AT + n] == d'[PPPOE_TAGS_AT..PPPOE_TAGS_AT + n];
  }

  lemma TrimSteps(d: seq<u8>, n: nat, p: nat, len: nat)
    requires PPPOE_TAGS_AT <= p && p + 12 <= |d| && 8 < len < 0x10000 && 8 <= n < 0x10000
    ensures var r := WithLength(d[..p + 4] + d[p + 12..], n - 8);
            && TagTrimmed(d, n, p, len, 8) == r[..p + 2] + U16(len - 8) + r[p + 4..]
            && TagTrimmed(d, n, p, len, 8)[..PPPOE_LENGTH_AT] == d[..PPPOE_LENGTH_AT]
  {
    hide U16;
    var cut, size := d[..p + 4] + d[p + 12..], U16(n - 8);
    assert cut[PPPOE_TAGS_AT..] == d[PPPOE_TAGS_AT..p + 4] + d[p + 12..];
    assert WithLength(cut, n - 8) == d[..PPPOE_LENGTH_AT] + size + d[PPPOE_TAGS_AT..p + 4] + d[p + 12..];
  }

  lemma TagBuf(s: seq<u8>, mac: Mac, was: seq<u8>)
    requires 12 + |was| <= |s| && |was| <= TAG_BUF_SIZE - 12
    requires s[0] == PTT_RELAY_SID / 256 && s[1] == PTT_RELAY_SID % 256
    requires s[2] == (8 + |was|) / 256 && s[3] == (8 + |was|) % 256
    requires s[4] == MAGIC_CODE[0] && s[5] == MAGIC_CODE[1]
    requires (forall k :: 0 <= k < 6 ==> s[6 + k] == mac[k]) && forall k :: 0 <= k < |was| ==> s[12 + k] == was[k]
    ensures s[..12 + |was|] == TagWire(RelayTag(mac, was))
  {
    var n := 12 + |was|;
    assert s[..2] == U16(PTT_RELAY_SID) && s[2..4] == U16(8 + |was|) && s[4..6] == MAGIC_CODE;
    assert s[6..12] == mac && s[12..n] == was;
    assert s[..n] == s[..2] + s[2..4] + (s[4..6] + s[6..12] + s[12..n]);
  }

  lemma OldTagIs(ts: seq<Tag>, k: nat)
    requires k == FirstTag(ts, PTT_RELAY_SID)
    ensures HasOldTag(ts) <==> k < |ts|
    ensures k < |ts| ==> OldData(ts) == ts[k].data && OtherTags(ts) == ts[..k] + ts[k + 1..]
    ensures k == |ts| ==> OldData(ts) == [] && OtherTags(ts) == ts
  {
  }

  lemma FrameLength(d: seq<u8>, ts: seq<Tag>)
    requires IsFrame(d, ts)
    ensures PPPOE_TAGS_AT + |EncodeTags(ts)| <= |d|
    ensures Num16(d[PPPOE_LENGTH_AT], d[PPPOE_LENGTH_AT + 1]) == |EncodeTags(ts)|
  {
    hide EncodeTags, U16;
    var w := d[PPPOE_LENGTH_AT..PPPOE_TAGS_AT];
    assert w[0] == d[PPPOE_LENGTH_AT] && w[1] == d[PPPOE_LENGTH_AT + 1];
  }

  lemma LengthSet(d: seq<u8>, n: nat)
    requires n < 0x10000 && PPPOE_TAGS_AT <= |d|
    ensures var r := WithLength(d, n);
            && r[..PPPOE_LENGTH_AT] == d[..PPPOE_LENGTH_AT] && r[PPPOE_LENGTH_AT..PPPOE_TAGS_AT] == U16(n)
            && r[PPPOE_TAGS_AT..] == d[PPPOE_TAGS_AT..]
  {
    hide U16;
  }

  /** The three steps of __nat25_add_pppoe_tag, bytes moved, length set, tag written, put together. */
  lemma Pushed(was: seq<u8>, roomy: seq<u8>, sized: seq<u8>, d: seq<u8>, ts: seq<Tag>, t: Tag)
    requires IsFrame(was, ts)
    requires var n, x := |EncodeTags(ts)|, TAG_HDR_LEN + |t.data|;
             && n + x < 0x10000 && Moved(was, roomy, x, n) && sized == WithLength(roomy, n + x)
             && d == sized[..PPPOE_TAGS_AT] + TagWire(t) + sized[PPPOE_TAGS_AT + x..]
    ensures IsFrame(d, [t] + ts) && d[..PPPOE_LENGTH_AT] == was[..PPPOE_LENGTH_AT]
  {
    hide EncodeTags, TagWire, U16;
    var n, x := |EncodeTags(ts)|, TAG_HDR_LEN + |t.data|;
    TagsOne(t);
    var w := TagWire(t);
    assert d[PPPOE_LENGTH_AT..PPPOE_TAGS_AT] == U16(n + x);
    assert d[PPPOE_TAGS_AT..PPPOE_TAGS_AT + x] == w;
    forall k | PPPOE_TAGS_AT + x <= k < PPPOE_TAGS_AT + x + n ensures d[k] == was[k - x] {
      assert d[k] == sized[k] == roomy[k];
    }
    var moved := d[PPPOE_TAGS_AT + x..PPPOE_TAGS_AT + x + n];
    assert forall k :: 0 <= k < n ==> moved[k] == d[PPPOE_TAGS_AT + x + k];
    assert moved == was[PPPOE_TAGS_AT..PPPOE_TAGS_AT + n];
    TagPushed(was, d, ts, t);
  }
}
