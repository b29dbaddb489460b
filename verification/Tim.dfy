/**
 The Traffic Indication Map element (section 9.4.2.5 of IEEE Std 802.11-2020): only a window of the
 AID bitmap is sent, together with the octet offset of the window and, in the lowest bit of the same
 byte, the bit of AID 0. rtw_set_tim_ie builds it, update_BCNTIM puts it in the beacon.
 */
module Tim {
  import opened Common
  import opened Elements
  import opened Beacon

  const EID_SSID: u8 := 0
  const EID_SUPPORTED_RATES: u8 := 1
  const EID_DS_PARAMETER_SET: u8 := 3
  const EID_TIM: u8 := 5

  // ----- the element, as a value -----

  predicate AllZero(bmp: seq<u8>) {
    forall i :: 0 <= i < |bmp| ==> bmp[i] == 0
  }

  /** Index of the first nonzero octet. */
  function FirstNonzero(bmp: seq<u8>): (i: nat)
    requires !AllZero(bmp)
    ensures i < |bmp| && bmp[i] != 0 && forall j :: 0 <= j < i ==> bmp[j] == 0
  {
    if bmp[0] != 0 then 0 else 1 + FirstNonzero(bmp[1..])
  }

  /** Index of the last nonzero octet, octet 0 counting as nonzero. */
  function LastNonzero(bmp: seq<u8>): (i: nat)
    requires bmp != []
    ensures i < |bmp| && (i == 0 || bmp[i] != 0) && forall j :: i < j < |bmp| ==> bmp[j] == 0
  {
    var last := |bmp| - 1;
    if last == 0 || bmp[last] != 0 then last else LastNonzero(bmp[..last])
  }

  function WindowStart(bmp: seq<u8>): nat {
    if AllZero(bmp) then 0 else FirstNonzero(bmp) - FirstNonzero(bmp) % 2
  }

  function WindowEnd(bmp: seq<u8>): (n: nat)
    requires bmp != []
    ensures WindowStart(bmp) < n <= |bmp|
  {
    if AllZero(bmp) then 1 else LastNonzero(bmp) + 1
  }

  /** The length byte of the element and the returned total are single bytes. */
  predicate WindowFits(bmp: seq<u8>) {
    1 <= |bmp| <= 255 && WindowEnd(bmp) - WindowStart(bmp) <= 250
  }

  function TimElement(dtimCnt: u8, dtimPeriod: u8, bmp: seq<u8>): Element
    requires WindowFits(bmp)
  {
    var n1: nat := WindowStart(bmp);
    // n1 is even, so adding the AID 0 bit is or-ing it in
    var control: nat := n1 + if bmp[0] % 2 == 1 then 1 else 0;
    Element(EID_TIM, [dtimCnt, dtimPeriod, control] + bmp[n1..WindowEnd(bmp)])
  }

  // ----- what a station reads from it -----

  /** The AID 0 bit. */
  predicate TimBit0(data: seq<u8>)
    requires |data| >= 4
  {
    data[2] % 2 == 1
  }

  /** The bitmap of n octets: the window at its offset, zero elsewhere. */
  function TimBitmap(data: seq<u8>, n: nat): seq<u8>
    requires |data| >= 4
  {
    var offset: int := data[2] - data[2] % 2;
    seq(n, i requires 0 <= i < n => if offset <= i < offset + |data| - 3 then data[3 + (i - offset)] else 0)
  }

  lemma EvenStart(start: int, bit: int)
    requires start % 2 == 0 && 0 <= bit <= 1
    ensures (start + bit) % 2 == bit && start + bit - (start + bit) % 2 == start
  {
  }

  /** The window starts at an even octet, and outside it all are zero. */
  lemma OutsideWindow(bmp: seq<u8>)
    requires bmp != []
    ensures WindowStart(bmp) % 2 == 0
    ensures forall i :: 0 <= i < |bmp| && !(WindowStart(bmp) <= i < WindowEnd(bmp)) ==> bmp[i] == 0
  {
    if !AllZero(bmp) {
      EvenStart(FirstNonzero(bmp) - FirstNonzero(bmp) % 2, FirstNonzero(bmp) % 2);
    }
  }

  lemma TimParts(dtimCnt: u8, dtimPeriod: u8, bmp: seq<u8>)
    requires WindowFits(bmp)
    ensures var t, start := TimElement(dtimCnt, dtimPeriod, bmp), WindowStart(bmp);
            && t.id == 5 && |t.data| == 3 + WindowEnd(bmp) - start >= 4
            && t.data[0] == dtimCnt && t.data[1] == dtimPeriod
            && t.data[2] == start + (if bmp[0] % 2 == 1 then 1 else 0)
            && t.data[3..] == bmp[start..WindowEnd(bmp)]
  {
    hide WindowStart, WindowEnd;
  }

  /** Decoding the element (ID 5) gives back counter, period and the whole bitmap. */
  lemma TimRoundTrip(dtimCnt: u8, dtimPeriod: u8, bmp: seq<u8>)
    requires WindowFits(bmp)
    ensures var data := TimElement(dtimCnt, dtimPeriod, bmp).data;
            && |data| >= 4 && TimBitmap(data, |bmp|) == bmp && (TimBit0(data) <==> bmp[0] % 2 == 1)
            && TimElement(dtimCnt, dtimPeriod, bmp).id == 5 && data[0] == dtimCnt && data[1] == dtimPeriod
  {
    hide WindowStart, WindowEnd, TimElement;
    var data, start := TimElement(dtimCnt, dtimPeriod, bmp).data, WindowStart(bmp);
    TimParts(dtimCnt, dtimPeriod, bmp);
    OutsideWindow(bmp);
    EvenStart(start, if bmp[0] % 2 == 1 then 1 else 0);
    var decoded := TimBitmap(data, |bmp|);
    forall i | 0 <= i < |bmp| ensures decoded[i] == bmp[i] {
      if start <= i < WindowEnd(bmp) {
        assert data[3..][i - start] == bmp[start..WindowEnd(bmp)][i - start];
      }
    }
  }

  /** No window with an even start that covers all nonzero octets is smaller. */
  lemma WindowSmallest(bmp: seq<u8>, start: nat, end: nat)
    requires bmp != [] && !AllZero(bmp)
    requires start % 2 == 0
    requires forall i :: 0 <= i < |bmp| && bmp[i] != 0 ==> start <= i < end
    ensures start <= WindowStart(bmp) && WindowEnd(bmp) <= end
    ensures WindowStart(bmp) % 2 == 0
    ensures forall i :: 0 <= i < |bmp| && bmp[i] != 0 ==> WindowStart(bmp) <= i < WindowEnd(bmp)
  {
    var last := LastNonzero(bmp);
    var first := FirstNonzero(bmp);
    assert bmp[first] != 0;
    assert bmp[last] != 0;
  }

  // ----- building it -----

  /** rtw_bmp_not_empty */
  method BmpNotEmpty(bmp: array<u8>, bmpLen: u8) returns (notEmpty: bool)
    requires bmpLen <= bmp.Length
    ensures notEmpty == !AllZero(bmp[..bmpLen])
  {
    for i := 0 to bmpLen
      invariant forall j :: 0 <= j < i ==> bmp[..bmpLen][j] == 0
    {
      if bmp[i] != 0 {
        assert bmp[..bmpLen][i] != 0;
        return true;
      }
    }
    return false;
  }

  /** First part of rtw_set_tim_ie: the first and last octet of the window. */
  method FindWindow(bmp: array<u8>, bmpLen: u8) returns (n1: nat, n2: nat)
    requires 1 <= bmpLen <= bmp.Length
    ensures n1 == WindowStart(bmp[..bmpLen]) && n2 + 1 == WindowEnd(bmp[..bmpLen])
  {
    ghost var bits := bmp[..bmpLen];
    n1, n2 := 0, 0;
    var notEmpty := BmpNotEmpty(bmp, bmpLen);
    if notEmpty {
      var i: int := 0;
      while i < bmpLen && bmp[i] == 0
        invariant 0 <= i <= bmpLen
        invariant forall j :: 0 <= j < i ==> bits[j] == 0
      {
        i := i + 1;
      }
      assert i == FirstNonzero(bits);
      n1 := i - i % 2;
      i := bmpLen - 1;
      while i > 0 && bmp[i] == 0
        invariant 0 <= i < bmpLen
        invariant forall j :: i < j < bmpLen ==> bits[j] == 0
      {
        i := i - 1;
      }
      assert i == LastNonzero(bits) by {
        assert i > 0 ==> bits[i] != 0;
      }
      n2 := i;
    }
  }

  /** Last part of rtw_set_tim_ie: the header bytes and the copied window. */
  method WriteTim(timIe: array<u8>, head: seq<u8>, bmp: array<u8>, n1: nat, windowLen: nat)
    requires timIe != bmp && |head| + windowLen <= timIe.Length && n1 + windowLen <= bmp.Length
    modifies timIe
    ensures timIe[..|head| + windowLen] == head + bmp[n1..n1 + windowLen]
  {
    forall i | 0 <= i < |head| {
      timIe[i] := head[i];
    }
    forall i | 0 <= i < windowLen {
      timIe[|head| + i] := bmp[n1 + i];
    }
  }

  /** rtw_set_tim_ie */
  method SetTimIe(dtimCnt: u8, dtimPeriod: u8, bmp: array<u8>, bmpLen: u8, timIe: array<u8>) returns (len: u8)
    requires bmpLen <= bmp.Length && bmp != timIe
    requires WindowFits(bmp[..bmpLen])
    requires 5 + WindowEnd(bmp[..bmpLen]) - WindowStart(bmp[..bmpLen]) <= timIe.Length
    modifies timIe
    ensures len == 5 + WindowEnd(bmp[..bmpLen]) - WindowStart(bmp[..bmpLen])
    ensures timIe[..len] == Wire(TimElement(dtimCnt, dtimPeriod, bmp[..bmpLen]))
  {
    hide WindowStart, WindowEnd, TimElement, Wire;
    ghost var bits := bmp[..bmpLen];
    var n1, n2 := FindWindow(bmp, bmpLen);
    var windowLen := n2 - n1 + 1;
    var control := n1 + if bmp[0] % 2 == 1 then 1 else 0;
    TimWire(dtimCnt, dtimPeriod, bits);
    assert bits[0] == bmp[0] && bits[n1..n1 + windowLen] == bmp[n1..n1 + windowLen];
    WriteTim(timIe, [EID_TIM, 2 + 1 + windowLen, dtimCnt, dtimPeriod, control], bmp, n1, windowLen);
    len := 2 + 2 + 1 + windowLen;
    assert bmp[..bmpLen] == bits;
  }

  lemma TimWire(dtimCnt: u8, dtimPeriod: u8, bmp: seq<u8>)
    requires WindowFits(bmp)
    ensures var n1, end := WindowStart(bmp), WindowEnd(bmp);
            var control: nat := n1 + if bmp[0] % 2 == 1 then 1 else 0;
            && control < 256
            && Wire(TimElement(dtimCnt, dtimPeriod, bmp)) ==
                 [EID_TIM, 3 + end - n1, dtimCnt, dtimPeriod, control] + bmp[n1..end]
  {
  }

  // ----- putting it into the beacon -----

  /** Bytes of the first element with that ID, 0 if there is none. */
  function ElementSize(es: seq<Element>, id: u8): nat {
    match Lookup(es, Id(id))
    case None => 0
    case Some(data) => |data| + 2
  }

  /** The offset at which update_BCNTIM inserts a TIM when the beacon has none. */
  function HeadLen(es: seq<Element>): nat {
    ElementSize(es, EID_SSID) + ElementSize(es, EID_SUPPORTED_RATES) + ElementSize(es, EID_DS_PARAMETER_SET)
  }

  lemma {:induction false} HeadLenFits(es: seq<Element>)
    ensures HeadLen(es) <= |Encode(es)|
  {
    if es != [] {
      HeadLenFits(es[1..]);
    }
  }

  predicate HasTim(es: seq<Element>) {
    var k := First(es, Id(EID_TIM));
    k < |es| && |es[k].data| > 0
  }

  /** A TIM without data does not count. */
  lemma HasTimMeans(es: seq<Element>)
    ensures HasTim(es) <==> Lookup(es, Id(5)) !in {None, Some([])}
  {
    LookupFirst(es, Id(5));
  }

  /** The element bytes after the update, t being the new TIM. */
  function WithTim(es: seq<Element>, t: Element): seq<u8> {
    HeadLenFits(es);
    var k := First(es, Id(EID_TIM));
    if HasTim(es) then Encode(es[..k] + [t] + es[k + 1..])
    else Encode(es)[..HeadLen(es)] + Wire(t) + Encode(es)[HeadLen(es)..]
  }

  /** A TIM with data is replaced by the new one, and the lookup of every other element is as it was. */
  lemma TimReplaced(es: seq<Element>, t: Element, key: Key)
    requires Lookup(es, Id(5)) !in {None, Some([])} && t.id == 5
    ensures var k := First(es, Id(5));
            && k < |es| && WithTim(es, t) == Encode(es[..k] + [t] + es[k + 1..])
            && Lookup(es[..k] + [t] + es[k + 1..], key) == if key == Id(5) then Some(t.data) else Lookup(es, key)
  {
    hide Lookup, First, Encode, HeadLen;
    HasTimMeans(es);
    var k := First(es, Id(EID_TIM));
    LookupSpliced(es[..k], [t], es[k + 1..], key);
    LookupSpliced(es[..k], [es[k]], es[k + 1..], key);
    assert es == es[..k] + [es[k]] + es[k + 1..];
    LookupOne(t, key);
    LookupOne(es[k], key);
    if key == Id(EID_TIM) {
      FirstIs(es[..k], key, k);
      LookupFirst(es[..k], key);
    }
  }

  /** Without one with data, an insertion at an element boundary puts the TIM between whole elements. */
  lemma TimInserted(es: seq<Element>, t: Element, k: nat)
    requires Lookup(es, Id(5)) in {None, Some([])} && k <= |es| && Off(es, k) == HeadLen(es)
    ensures WithTim(es, t) == Encode(es[..k] + [t] + es[k..])
  {
    HasTimMeans(es);
    EncodeBetween(es, k, k, [t]);
    EncodeOne(t);
  }

  /** The offset is such a boundary when the SSID (0), rates (1) and DS (3) elements come first, in any order. */
  lemma {:induction false} HeadIsBoundary(head: seq<Element>, tail: seq<Element>)
    requires forall e :: e in head ==> e.id in {0, 1, 3}
    requires forall i, j :: 0 <= i < j < |head| ==> head[i].id != head[j].id
    requires forall e :: e in tail ==> e.id !in {0, 1, 3}
    ensures HeadLen(head + tail) == Off(head + tail, |head|)
  {
    hide Lookup, First;
    assert (head + tail)[..|head|] == head;
    if head == [] {
      assert head + tail == tail;
      AbsentSize(tail, EID_SSID);
      AbsentSize(tail, EID_SUPPORTED_RATES);
      AbsentSize(tail, EID_DS_PARAMETER_SET);
    } else {
      var rest := head[1..];
      HeadIsBoundary(rest, tail);
      assert (rest + tail)[..|rest|] == rest;
      assert head + tail == [head[0]] + (rest + tail);
      assert head[0] in head;
      forall e | e in rest + tail ensures e.id != head[0].id {
      }
      OneMore(head[0], rest + tail, EID_SSID);
      OneMore(head[0], rest + tail, EID_SUPPORTED_RATES);
      OneMore(head[0], rest + tail, EID_DS_PARAMETER_SET);
    }
  }

  lemma AbsentSize(es: seq<Element>, id: u8)
    requires Absent(es, id)
    ensures ElementSize(es, id) == 0
  {
    AbsentFirst(es, id);
    LookupFirst(es, Id(id));
  }

  /** An element with an ID not used before, put in front, adds its own size to what is found under its ID. */
  lemma OneMore(e: Element, rest: seq<Element>, id: u8)
    requires Absent(rest, e.id)
    ensures ElementSize([e] + rest, id) == ElementSize(rest, id) + if id == e.id then |Wire(e)| else 0
  {
    hide Lookup;
    LookupOne(e, Id(id));
    LookupConcat([e], rest, Id(id));
    AbsentSize(rest, e.id);
  }

  predicate AtBoundary(es: seq<Element>) {
    exists k :: 0 <= k <= |es| && Off(es, k) == HeadLen(es)
  }

  /** The updated beacon holds the old elements with the TIM among them. */
  predicate InsertsWhole(es: seq<Element>, t: Element) {
    exists k :: 0 <= k <= |es| && WithTim(es, t) == Encode(es[..k] + [t] + es[k..])
  }

  /** What the TIM of a one-octet bitmap looks like. */
  predicate TimLike(w: seq<u8>) {
    |w| == 6 && w[0] == 5 && w[1] == 4 && w[2] == 0 && w[3] == 1 && w[4] < 2
  }

  /** Such a word commutes with no shorter one, */
  lemma NoShorterCommutes(u: seq<u8>, w: seq<u8>)
    requires TimLike(w) && 0 < |u| < 6
    ensures u + w != w + u
  {
    var n, one, two := |u|, u + w, w + u;
    assert one[n] == w[0] && two[n] == w[n];
    assert one[0] == u[0] && two[0] == w[0];
    assert n == 5 ==> one[6] == w[1] && two[6] == u[0];
  }

  /** and with longer ones only if these begin and end with it. */
  lemma Commuting(u: seq<u8>, w: seq<u8>)
    requires |w| == 6 <= |u| && u + w == w + u
    ensures u[5] == u[|u| - 1] == w[5]
  {
    var n := |u|;
    assert (u + w)[5] == u[5] && (w + u)[5] == w[5];
    assert (u + w)[n + 5] == w[5] && (w + u)[n + 5] == u[n - 1];
  }

  /** So where such a word gives the same text at two places, the bytes between begin and end with it. */
  lemma SameInsertion(text: seq<u8>, w: seq<u8>, i: nat, j: nat)
    requires TimLike(w) && i < j <= |text| && text[..i] + w + text[i..] == text[..j] + w + text[j..]
    ensures j - i >= 6 && text[i + 5] == text[j - 1] == w[5]
  {
    var u := text[i..j];
    var one, two := text[..i] + w + text[i..], text[..j] + w + text[j..];
    assert one[i..j + |w|] == w + u;
    assert two[i..j + |w|] == u + w;
    if |u| < 6 {
      NoShorterCommutes(u, w);
    } else {
      Commuting(u, w);
    }
  }

  lemma OneOctetTim(x: u8)
    ensures WindowFits([x]) && Wire(TimElement(0, 1, [x])) == [EID_TIM, 4, 0, 1, x % 2, x]
  {
    var bmp: seq<u8> := [x];
    assert WindowStart(bmp) == 0 && WindowEnd(bmp) == 1;
    assert bmp[0..1] == [x];
  }

  lemma TimLikeIs(x: u8)
    ensures TimLike([EID_TIM, 4, 0, 1, x % 2, x])
  {
  }

  lemma WithNewTim(es: seq<Element>, t: Element)
    requires !HasTim(es)
    ensures HeadLen(es) <= |Encode(es)|
    ensures WithTim(es, t) == Encode(es)[..HeadLen(es)] + Wire(t) + Encode(es)[HeadLen(es)..]
  {
    hide Encode, Wire, HeadLen, HasTim;
    HeadLenFits(es);
  }

  /** Inside an element no place gives the bytes of the insertion, for a suitable bitmap octet. */
  lemma NotInserted(es: seq<Element>, x: u8, k: nat)
    requires !HasTim(es) && k <= |es| && Off(es, k) != HeadLen(es) <= |Encode(es)|
    requires HeadLen(es) > 0 ==> Encode(es)[HeadLen(es) - 1] != x
    requires HeadLen(es) + 5 < |Encode(es)| ==> Encode(es)[HeadLen(es) + 5] != x
    ensures WindowFits([x])
    ensures var t := TimElement(0, 1, [x]); WithTim(es, t) != Encode(es[..k] + [t] + es[k..])
  {
    hide Encode, Wire, TimElement, HeadLen, HasTim, Off, WindowFits, WithTim, TimLike;
    OneOctetTim(x);
    TimLikeIs(x);
    WithNewTim(es, TimElement(0, 1, [x]));
    var t := TimElement(0, 1, [x]);
    var text, w, h, o := Encode(es), Wire(t), HeadLen(es), Off(es, k);
    EncodeOne(t);
    EncodeBetween(es, k, k, [t]);
    if WithTim(es, t) == Encode(es[..k] + [t] + es[k..]) {
      SameInsertion(text, w, if o < h then o else h, if o < h then h else o);
    }
  }

  /**
   A new TIM goes in without damage, for every bitmap, exactly when the SSID, rates and DS elements
   together are as long as some first elements of the beacon.
   */
  lemma TimInsertsExactly(es: seq<Element>)
    requires Lookup(es, Id(5)) in {None, Some([])}
    ensures (forall bmp: seq<u8> | WindowFits(bmp) :: InsertsWhole(es, TimElement(0, 1, bmp))) <==> AtBoundary(es)
  {
    hide Encode, HasTim, WithTim, HeadLen, Off, WindowFits, TimElement, Lookup;
    HasTimMeans(es);
    HeadLenFits(es);
    if k :| 0 <= k <= |es| && Off(es, k) == HeadLen(es) {
      forall bmp: seq<u8> | WindowFits(bmp) ensures InsertsWhole(es, TimElement(0, 1, bmp)) {
        TimInserted(es, TimElement(0, 1, bmp), k);
      }
    } else {
      var text, h := Encode(es), HeadLen(es);
      var before, behind := if h > 0 then text[h - 1] else 0, if h + 5 < |text| then text[h + 5] else 0;
      var x: u8 := if before != 0 && behind != 0 then 0 else if before != 1 && behind != 1 then 1 else 2;
      OneOctetTim(x);
      forall k | 0 <= k <= |es|
        ensures WithTim(es, TimElement(0, 1, [x])) != Encode(es[..k] + [TimElement(0, 1, [x])] + es[k..])
      {
        NotInserted(es, x, k);
      }
      assert !InsertsWhole(es, TimElement(0, 1, [x]));
    }
  }

  /** What the lookups find when the first match is element k. */
  lemma FoundAt(es: seq<Element>, id: u8, k: nat)
    requires k <= |es| && forall j :: 0 <= j < k ==> es[j].id != id
    requires k < |es| ==> es[k].id == id
    ensures First(es, Id(id)) == k
    ensures Lookup(es, Id(id)) == if k < |es| then Some(es[k].data) else None
  {
    FirstIs(es, Id(id), k);
    LookupFirst(es, Id(id));
  }

  /** A beacon with a country element (ID 7) between SSID and rates. */
  function CountrySecond(): seq<Element> {
    [Element(EID_SSID, [97]), Element(7, [85, 83, 32]), Element(EID_SUPPORTED_RATES, [2, 0])]
  }

  /** What walking over it finds after a new TIM. */
  function Damaged(): seq<Element> {
    [Element(EID_SSID, [97]), Element(7, [85, 83, EID_TIM]), Element(4, []),
     Element(EID_SUPPORTED_RATES, [1]), Element(32, [2]), Element(2, [])]
  }

  lemma ThreeBytes(es: seq<Element>)
    requires |es| == 3
    ensures Encode(es) == Wire(es[0]) + Wire(es[1]) + Wire(es[2])
  {
    hide Encode, Wire;
    EncodeOne(es[0]);
    EncodeConcat([es[0]], [es[1]]);
    EncodeOne(es[1]);
    EncodeConcat([es[0]] + [es[1]], [es[2]]);
    EncodeOne(es[2]);
    assert es == [es[0]] + [es[1]] + [es[2]];
  }

  lemma DamagedBytes()
    ensures Encode(Damaged()) == [0, 1, 97, 7, 3, 85, 83, 5, 4, 0, 1, 1, 1, 32, 1, 2, 2, 0]
  {
    hide Encode;
    var es := Damaged();
    var head, tail := es[..3], es[3..];
    ThreeBytes(head);
    ThreeBytes(tail);
    EncodeConcat(head, tail);
    assert es == head + tail;
  }

  /**
   What the damage can be: a country element behind the SSID gets the TIM's first byte for its last one,
   the rates change, and there is no TIM to be found.
   */
  lemma TimDamages()
    ensures var es, now := CountrySecond(), Damaged();
            && !HasTim(es) && WindowFits([1]) && WithTim(es, TimElement(0, 1, [1])) == Encode(now)
            && Lookup(now, Id(EID_TIM)) == None
            && Lookup(now, Id(7)) == Some([85, 83, EID_TIM]) && Lookup(es, Id(7)) == Some([85, 83, 32])
            && Lookup(now, Id(EID_SUPPORTED_RATES)) == Some([1]) && Lookup(es, Id(EID_SUPPORTED_RATES)) == Some([2, 0])
  {
    hide Encode, Lookup, First, TimElement, WindowFits;
    var es, now := CountrySecond(), Damaged();
    OneOctetTim(1);
    ThreeBytes(es);
    DamagedBytes();
    FoundAt(es, EID_TIM, 3);
    FoundAt(es, EID_DS_PARAMETER_SET, 3);
    FoundAt(es, EID_SSID, 0);
    FoundAt(es, EID_SUPPORTED_RATES, 2);
    FoundAt(es, 7, 1);
    FoundAt(now, EID_TIM, 6);
    FoundAt(now, EID_SUPPORTED_RATES, 3);
    FoundAt(now, 7, 1);
    assert HeadLen(es) == 7;
  }

  method IeSize(bss: BssNetwork, id: u8, ghost es: seq<Element>) returns (size: nat)
    requires bss.Holds(es)
    ensures size == ElementSize(es, id)
  {
    var p, len := GetIe(bss.IEs, FIXED_IE_LENGTH, bss.IELength - FIXED_IE_LENGTH, Id(id), es);
    LookupFirst(es, Id(id));
    size := if p != -1 then len + 2 else 0;
  }

  /** Where update_BCNTIM inserts: behind as many bytes as the fixed part and those three elements take. */
  method InsertOffset(bss: BssNetwork, ghost es: seq<Element>) returns (offset: nat)
    requires bss.Holds(es)
    ensures offset == FIXED_IE_LENGTH + HeadLen(es)
  {
    hide Encode;
    offset := FIXED_IE_LENGTH;
    var size := IeSize(bss, EID_SSID, es);
    offset := offset + size;
    size := IeSize(bss, EID_SUPPORTED_RATES, es);
    offset := offset + size;
    size := IeSize(bss, EID_DS_PARAMETER_SET, es);
    offset := offset + size;
  }

  /** Bytes the beacon loses to a new TIM. */
  function OldTimLen(es: seq<Element>): nat {
    if HasTim(es) then IE_HDR_LEN + |es[First(es, Id(EID_TIM))].data| else 0
  }

  lemma WithTimSize(es: seq<Element>, t: Element)
    ensures |WithTim(es, t)| + OldTimLen(es) == |Encode(es)| + IE_HDR_LEN + |t.data|
  {
    hide Encode, First, HeadLen;
    var k := First(es, Id(EID_TIM));
    HeadLenFits(es);
    if HasTim(es) {
      EncodeBetween(es, k, k + 1, [t]);
      EncodeOne(t);
      ElementAt(es, k);
    }
  }

  /** There is no check for room: the update ends behind the buffer exactly if the new size does. */
  lemma TimOverflowsExactly(es: seq<Element>, bmp: seq<u8>)
    requires WindowFits(bmp)
    ensures 12 + |WithTim(es, TimElement(0, 1, bmp))| > 768 <==>
              Size(es) - OldTimLen(es) + 5 + WindowEnd(bmp) - WindowStart(bmp) > 768
  {
    hide WithTim, OldTimLen, Encode, WindowStart, WindowEnd;
    WithTimSize(es, TimElement(0, 1, bmp));
  }

  /** The first branch of update_BCNTIM: over the old TIM. */
  method ReplaceTim(bss: BssNetwork, tim: seq<u8>, p: nat, ghost es: seq<Element>, ghost k: nat, ghost t: Element)
    requires bss.Holds(es) && k < |es| && p == FIXED_IE_LENGTH + Off(es, k) && tim == Wire(t)
    requires FIXED_IE_LENGTH + |Encode(es[..k] + [t] + es[k + 1..])| <= bss.IEs.Length
    modifies bss`IELength, bss.IEs
    ensures FIXED_IE_LENGTH <= bss.IELength <= bss.IEs.Length
    ensures bss.IEs[..FIXED_IE_LENGTH] == old(bss.IEs[..FIXED_IE_LENGTH])
    ensures bss.IEs[FIXED_IE_LENGTH..bss.IELength] == Encode(es[..k] + [t] + es[k + 1..])
    ensures bss.IEs[bss.IELength..] == old(bss.IEs[..])[bss.IELength..]
  {
    hide Encode, Off, Wire;
    bss.ReadAt(es, k);
    EncodeOne(t);
    EncodeBetween(es, k, k + 1, [t]);
    bss.SpliceElements(p, p + bss.IEs[p + 1] + 2, tim, es, k, k + 1, [t]);
  }

  /** The other branch: at the insertion offset. */
  method InsertTim(bss: BssNetwork, tim: seq<u8>, ghost es: seq<Element>)
    requires bss.Holds(es) && bss.IELength + |tim| <= bss.IEs.Length
    modifies bss`IELength, bss.IEs
    ensures HeadLen(es) <= |Encode(es)|
    ensures FIXED_IE_LENGTH <= bss.IELength <= bss.IEs.Length
    ensures bss.IEs[..FIXED_IE_LENGTH] == old(bss.IEs[..FIXED_IE_LENGTH])
    ensures bss.IEs[FIXED_IE_LENGTH..bss.IELength] == Encode(es)[..HeadLen(es)] + tim + Encode(es)[HeadLen(es)..]
    ensures bss.IEs[bss.IELength..] == old(bss.IEs[..])[bss.IELength..]
  {
    hide Encode, HeadLen;
    var offset := InsertOffset(bss, es);
    HeadLenFits(es);
    SplitSlice(bss.IEs[..], FIXED_IE_LENGTH, offset, bss.IELength);
    ghost var front := bss.IEs[..offset];
    bss.Splice(offset, offset, tim);
    assert bss.IEs[..FIXED_IE_LENGTH] == front[..FIXED_IE_LENGTH];
  }

  /** update_BCNTIM; before it the beacon may already have been filled beyond MAX_IE_SZ by an added element. */
  method UpdateBcnTim(bss: BssNetwork, bmp: array<u8>, bmpLen: u8, ghost es: seq<Element>)
    requires bss.Holds(es) && bmp != bss.IEs && bss.IELength <= MAX_IE_SZ + IE_HDR_LEN
    requires bmpLen <= bmp.Length && WindowFits(bmp[..bmpLen])
    modifies bss`IELength, bss.IEs
    ensures FIXED_IE_LENGTH <= bss.IELength <= bss.IEs.Length
    ensures bss.IEs[..FIXED_IE_LENGTH] == old(bss.IEs[..FIXED_IE_LENGTH])
    ensures bss.IEs[FIXED_IE_LENGTH..bss.IELength] == WithTim(es, TimElement(0, 1, bmp[..bmpLen]))
    ensures bss.IEs[bss.IELength..] == old(bss.IEs[..])[bss.IELength..]
  {
    hide Encode, Off, First, ElementSize, HeadLen, TimElement, Wire, WindowStart, WindowEnd, Seen, Behind, OldTimLen;
    ghost var bits := bmp[..bmpLen];
    ghost var t := TimElement(0, 1, bits);
    var tim := new u8[255];
    var timLen := SetTimIe(0, 1, bmp, bmpLen, tim);
    WithTimSize(es, t);
    HeadLenFits(es);
    var p, ielen := GetIe(bss.IEs, FIXED_IE_LENGTH, bss.IELength - FIXED_IE_LENGTH, Id(EID_TIM), es);
    if p != -1 && ielen > 0 {
      ReplaceTim(bss, tim[..timLen], p, es, First(es, Id(EID_TIM)), t);
    } else {
      InsertTim(bss, tim[..timLen], es);
    }
    assert bmp[..bmpLen] == bits;
  }
}
