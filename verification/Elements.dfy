/**
 Information elements: the (id, length, data) triples that the driver keeps back to back in byte
 buffers, and the walkers of rtw_ieee80211.c that look elements up, append and remove them in place.
 */
module Elements {
  import opened Common

  const EID_EXTENSION: u8 := 255

  datatype RawElement = Element(id: u8, data: seq<u8>)

  type Element = e: RawElement | |e.data| <= 255 witness Element(0, [])

  /** What a lookup asks for: an element ID, or an ID 255 element with a given extension ID. */
  datatype Key = Id(id: u8) | Ext(ext: u8)

  predicate Matches(e: Element, key: Key) {
    match key
    case Id(i) => e.id == i
    case Ext(x) => e.id == EID_EXTENSION && |e.data| > 0 && e.data[0] == x
  }

  function Wire(e: Element): seq<u8> {
    [e.id, |e.data|] + e.data
  }

  function Encode(es: seq<Element>): seq<u8> {
    if es == [] then [] else Wire(es[0]) + Encode(es[1..])
  }

  /** Byte offset of element k. */
  function Off(es: seq<Element>, k: nat): nat
    requires k <= |es|
  {
    |Encode(es[..k])|
  }

  /** Index of the first element matching the key, |es| if there is none. */
  function First(es: seq<Element>, key: Key): (k: nat)
    ensures k <= |es|
    ensures k < |es| ==> Matches(es[k], key)
    ensures forall j :: 0 <= j < k ==> !Matches(es[j], key)
  {
    if es == [] || Matches(es[0], key) then 0 else 1 + First(es[1..], key)
  }

  lemma {:induction false} FirstIs(es: seq<Element>, key: Key, k: nat)
    requires k <= |es|
    requires forall j :: 0 <= j < k ==> !Matches(es[j], key)
    requires k < |es| ==> Matches(es[k], key)
    ensures First(es, key) == k
  {
  }

  /** First-match lookup of an element's data. */
  function Lookup(es: seq<Element>, key: Key): Option<seq<u8>> {
    if es == [] then None
    else if Matches(es[0], key) then Some(es[0].data)
    else Lookup(es[1..], key)
  }

  lemma {:induction false} LookupFirst(es: seq<Element>, key: Key)
    ensures Lookup(es, key) == var k := First(es, key); if k < |es| then Some(es[k].data) else None
  {
    if es != [] && !Matches(es[0], key) {
      LookupFirst(es[1..], key);
    }
  }

  /** All elements but the matching ones, in order. */
  function Without(es: seq<Element>, key: Key): seq<Element> {
    if es == [] then []
    else if Matches(es[0], key) then Without(es[1..], key)
    else [es[0]] + Without(es[1..], key)
  }

  lemma {:induction false} EncodeConcat(a: seq<Element>, b: seq<Element>)
    ensures Encode(a + b) == Encode(a) + Encode(b)
  {
    if a == [] {
      assert a + b == b;
    } else {
      EncodeConcat(a[1..], b);
      assert (a + b)[1..] == a[1..] + b;
    }
  }

  lemma EncodeNil()
    ensures Encode([]) == []
  {
  }

  lemma EncodeOne(e: Element)
    ensures Encode([e]) == Wire(e)
  {
    assert [e][1..] == [];
  }

  lemma EncodeAround(es: seq<Element>, k: nat)
    requires k < |es|
    ensures Encode(es[..k + 1]) == Encode(es[..k]) + Wire(es[k])
    ensures Encode(es) == Encode(es[..k]) + Wire(es[k]) + Encode(es[k+1..])
  {
    hide Encode, Wire;
    var a, x, b := es[..k], [es[k]], es[k+1..];
    PartsAround(es, k);
    EncodeConcat(a, x);
    EncodeConcat(a + x, b);
    EncodeOne(es[k]);
  }

  lemma PartsAround(es: seq<Element>, k: nat)
    requires k < |es|
    ensures es[..k + 1] == es[..k] + [es[k]]
    ensures es == es[..k] + [es[k]] + es[k+1..]
  {
  }

  /** Element k is on the wire at Off(es, k), between the encodings of its neighbours. */
  lemma ElementAt(es: seq<Element>, k: nat)
    requires k < |es|
    ensures Off(es, k) + 2 + |es[k].data| == Off(es, k + 1) <= |Encode(es)|
    ensures Encode(es) == Encode(es[..k]) + Wire(es[k]) + Encode(es[k+1..])
    ensures Encode(es)[Off(es, k)] == es[k].id
    ensures Encode(es)[Off(es, k) + 1] == |es[k].data|
    ensures Encode(es)[Off(es, k) + 2..Off(es, k + 1)] == es[k].data
    ensures |es[k].data| > 0 ==> Encode(es)[Off(es, k) + 2] == es[k].data[0]
  {
    hide Encode, Wire;
    EncodeAround(es, k);
    InMiddle(Encode(es[..k]), es[k], Encode(es[k+1..]));
  }

  lemma InMiddle(a: seq<u8>, e: Element, b: seq<u8>)
    ensures var s, i := a + Wire(e) + b, |a|;
            && |Wire(e)| == 2 + |e.data| && s[i] == e.id && s[i + 1] == |e.data|
            && s[i + 2..i + 2 + |e.data|] == e.data
            && (|e.data| > 0 ==> s[i + 2] == e.data[0])
  {
    var w := Wire(e);
    var s := a + w + b;
    assert s[|a|] == w[0] && s[|a| + 1] == w[1];
    forall j | 0 <= j < |e.data| ensures s[|a| + 2 + j] == e.data[j] {
      assert s[|a| + 2 + j] == w[2 + j];
    }
  }

  lemma OffEnds(es: seq<Element>)
    ensures Off(es, 0) == 0 && Off(es, |es|) == |Encode(es)|
  {
    assert es[..|es|] == es;
  }

  lemma AtEnd(es: seq<Element>, k: nat)
    requires k <= |es|
    ensures Off(es, k) <= |Encode(es)|
    ensures Off(es, k) == |Encode(es)| <==> k == |es|
  {
    OffEnds(es);
    if k < |es| {
      ElementAt(es, k);
    }
  }

  lemma {:induction false} WithoutConcat(a: seq<Element>, b: seq<Element>, key: Key)
    ensures Without(a + b, key) == Without(a, key) + Without(b, key)
  {
    if a == [] {
      assert a + b == b;
    } else {
      assert (a + b)[1..] == a[1..] + b;
      WithoutConcat(a[1..], b, key);
    }
  }

  lemma {:induction false} WithoutNothing(es: seq<Element>, key: Key)
    requires forall e :: e in es ==> !Matches(e, key)
    ensures Without(es, key) == es
  {
    if es != [] {
      WithoutNothing(es[1..], key);
    }
  }

  lemma {:induction false} LookupConcat(a: seq<Element>, b: seq<Element>, key: Key)
    ensures Lookup(a + b, key) == if Lookup(a, key).Some? then Lookup(a, key) else Lookup(b, key)
  {
    if a == [] {
      assert a + b == b;
    } else {
      assert (a + b)[1..] == a[1..] + b;
      LookupConcat(a[1..], b, key);
    }
  }

  lemma {:induction false} LookupWithout(es: seq<Element>, gone: Key, key: Key)
    requires forall e: Element :: Matches(e, key) ==> !Matches(e, gone)
    ensures Lookup(Without(es, gone), key) == Lookup(es, key)
  {
    if es != [] {
      LookupWithout(es[1..], gone, key);
      if !Matches(es[0], gone) {
        assert ([es[0]] + Without(es[1..], gone))[1..] == Without(es[1..], gone);
      } else {
        assert !Matches(es[0], key);
      }
    }
  }

  lemma {:induction false} LookupGone(es: seq<Element>, gone: Key, key: Key)
    requires forall e: Element :: Matches(e, key) ==> Matches(e, gone)
    ensures Lookup(Without(es, gone), key) == None
  {
    if es != [] {
      LookupGone(es[1..], gone, key);
      if !Matches(es[0], gone) {
        assert !Matches(es[0], key);
        assert ([es[0]] + Without(es[1..], gone))[1..] == Without(es[1..], gone);
      }
    }
  }

  /** Every ID 255 element has its extension ID. */
  predicate ExtNonEmpty(es: seq<Element>) {
    forall e :: e in es && e.id == EID_EXTENSION ==> |e.data| > 0
  }

  /**
   Does the walker take the first element for a match? It looks for an extension ID behind the header
   without asking for the length: without data that is the next element's ID, or the byte behind the list.
   */
  predicate LooksMatching(es: seq<Element>, key: Key, behind: u8)
    requires es != []
  {
    match key
    case Id(i) => es[0].id == i
    case Ext(x) =>
      && es[0].id == EID_EXTENSION
      && x == if es[0].data != [] then es[0].data[0] else if |es| > 1 then es[1].id else behind
  }

  /** Index of the first element it takes for a match, |es| if there is none. */
  function Seen(es: seq<Element>, key: Key, behind: u8): (k: nat)
    ensures k <= |es|
    ensures k < |es| ==> LooksMatching(es[k..], key, behind)
    ensures forall j :: 0 <= j < k ==> !LooksMatching(es[j..], key, behind)
  {
    if es == [] || LooksMatching(es, key, behind) then 0
    else
      assert forall j :: 0 < j <= |es| ==> es[1..][j - 1..] == es[j..];
      1 + Seen(es[1..], key, behind)
  }

  lemma SeenIs(es: seq<Element>, key: Key, behind: u8, k: nat)
    requires k <= |es| && forall j :: 0 <= j < k ==> !LooksMatching(es[j..], key, behind)
    requires k < |es| ==> LooksMatching(es[k..], key, behind)
    ensures Seen(es, key, behind) == k
  {
    var n := Seen(es, key, behind);
    assert !(n < k) && !(k < n);
  }

  /** That is the first match exactly if no ID 255 element before it lacks its ID and has that one behind it. */
  lemma SeenExactly(es: seq<Element>, key: Key, behind: u8)
    ensures Seen(es, key, behind) == First(es, key) <==>
              forall j :: 0 <= j < First(es, key) && es[j].data == [] ==> !LooksMatching(es[j..], key, behind)
    ensures key.Id? || ExtNonEmpty(es) ==> Seen(es, key, behind) == First(es, key)
  {
    hide First;
    var n := First(es, key);
    forall j | 0 <= j < |es| && (key.Id? || es[j].data != [])
      ensures LooksMatching(es[j..], key, behind) <==> Matches(es[j], key)
    {
      assert es[j..][0] == es[j];
    }
    if forall j :: 0 <= j < n && es[j].data == [] ==> !LooksMatching(es[j..], key, behind) {
      SeenIs(es, key, behind, n);
    } else if key.Id? {
      SeenIs(es, key, behind, n);
    }
  }

  /** The byte behind position i. */
  function Behind(buf: seq<u8>, i: nat): u8 {
    if i < |buf| then buf[i] else 0
  }

  /** rtw_get_ie, rtw_get_ie_ex: walk from element to element up to the first match. */
  method GetIe(buf: array<u8>, start: nat, limit: nat, key: Key, ghost es: seq<Element>) returns (pos: int, len: nat)
    requires start + limit <= buf.Length
    requires buf[start..start + limit] == Encode(es)
    requires key.Ext? && !ExtNonEmpty(es) ==> start + limit < buf.Length
    ensures var k := Seen(es, key, Behind(buf[..], start + limit));
            if k == |es| then pos == -1 else pos == start + Off(es, k) && len == |es[k].data|
    ensures key.Id? || ExtNonEmpty(es) ==>
              var k := First(es, key);
              if k == |es| then pos == -1 else pos == start + Off(es, k) && len == |es[k].data|
  {
    hide Encode, First, Off, Seen, LooksMatching, ExtNonEmpty;
    ghost var behind := Behind(buf[..], start + limit);
    pos, len := -1, 0;
    var i := 0;
    ghost var k := 0;
    OffEnds(es);
    SeenExactly(es, key, behind);
    while i < limit
      invariant k <= |es| && i == Off(es, k) <= limit
      invariant forall j :: 0 <= j < k ==> !LooksMatching(es[j..], key, behind)
      decreases limit - i
    {
      AtEnd(es, k);
      ReadHeader(buf, start, limit, es, k);
      var at := start + i;
      var hit := HitAt(buf, start, limit, key, es, k, at);
      if hit {
        SeenIs(es, key, behind, k);
        pos, len := at, buf[at + 1];
        return;
      }
      i := i + buf[at + 1] + 2;
      k := k + 1;
    }
    AtEnd(es, k);
    SeenIs(es, key, behind, k);
  }

  lemma ReadHeader(buf: array<u8>, start: nat, limit: nat, es: seq<Element>, k: nat)
    requires start + limit <= buf.Length && buf[start..start + limit] == Encode(es) && k < |es|
    ensures Off(es, k) + 2 + |es[k].data| == Off(es, k + 1) <= limit
    ensures buf[start + Off(es, k)] == es[k].id && buf[start + Off(es, k) + 1] == |es[k].data|
  {
    hide Encode, Off;
    ghost var bytes := buf[start..start + limit];
    ElementAt(es, k);
    assert bytes[Off(es, k)] == buf[start + Off(es, k)] && bytes[Off(es, k) + 1] == buf[start + Off(es, k) + 1];
  }

  /** The comparison of the walker at element k. */
  method HitAt(buf: array<u8>, start: nat, limit: nat, key: Key, ghost es: seq<Element>, ghost k: nat, at: nat)
    returns (hit: bool)
    requires start + limit <= buf.Length && buf[start..start + limit] == Encode(es)
    requires k < |es| && at == start + Off(es, k)
    requires key.Ext? && !ExtNonEmpty(es) ==> start + limit < buf.Length
    ensures hit == LooksMatching(es[k..], key, Behind(buf[..], start + limit))
  {
    hide Encode, Off;
    ReadHeader(buf, start, limit, es, k);
    ThirdByte(es, k);
    assert at + 2 < start + limit ==> buf[at + 2] == buf[start..start + limit][at + 2 - start];
    hit := match key
      case Id(id) => buf[at] == id
      case Ext(x) => buf[at] == EID_EXTENSION && buf[at + 2] == x;
  }

  /** What is behind the header of element k. */
  lemma ThirdByte(es: seq<Element>, k: nat)
    requires k < |es|
    ensures es[k..][0] == es[k] && (k + 1 < |es| ==> es[k..][1] == es[k + 1]) && es[k] in es
    ensures var i := Off(es, k) + 2;
            if es[k].data != [] then i < |Encode(es)| && Encode(es)[i] == es[k].data[0]
            else if k + 1 < |es| then i < |Encode(es)| && Encode(es)[i] == es[k + 1].id
            else i == |Encode(es)|
  {
    hide *;
    ElementAt(es, k);
    AtEnd(es, k + 1);
    if k + 1 < |es| {
      ElementAt(es, k + 1);
    }
  }

  method Memcpy(a: array<u8>, to: nat, b: array<u8>, from: nat, n: nat)
    requires a != b && to + n <= a.Length && from + n <= b.Length
    modifies a
    ensures a[to..to + n] == b[from..from + n]
    ensures a[..to] == old(a[..to]) && a[to + n..] == old(a[to + n..])
  {
    forall j | 0 <= j < n {
      a[to + j] := b[from + j];
    }
  }

  /** rtw_set_ie: write one element at pos and advance the frame length. */
  method SetIe(buf: array<u8>, pos: nat, index: u8, source: array<u8>, from: nat, len: u8) returns (newPos: nat)
    requires buf != source
    requires pos + 2 + len <= buf.Length && from + len <= source.Length
    modifies buf
    ensures newPos == pos + 2 + len
    ensures buf[..newPos] == old(buf[..pos]) + Wire(Element(index, source[from..from + len]))
    ensures buf[newPos..] == old(buf[newPos..])
  {
    buf[pos] := index;
    buf[pos + 1] := len;
    Memcpy(buf, pos + 2, source, from, len);
    newPos := pos + len + 2;
    assert buf[..newPos] == buf[..pos + 2] + buf[pos + 2..newPos];
  }

  /** Where the wire form splits around element k. */
  lemma EncodeSplit(es: seq<Element>, k: nat)
    requires k < |es|
    ensures Off(es, k) + 2 + |es[k].data| == Off(es, k + 1) <= |Encode(es)|
    ensures Encode(es)[..Off(es, k)] == Encode(es[..k])
    ensures Encode(es)[Off(es, k + 1)..] == Encode(es[k + 1..])
  {
    ElementAt(es, k);
  }

  lemma SplitSlice(s: seq<u8>, lo: nat, mid: nat, hi: nat)
    requires lo <= mid <= hi <= |s|
    ensures s[lo..hi][..mid - lo] == s[lo..mid]
    ensures s[lo..hi][mid - lo..] == s[mid..hi]
  {
  }

  lemma SubSlice(s: seq<u8>, lo: nat, hi: nat, x: nat, y: nat)
    requires lo <= hi <= |s| && x <= y <= hi - lo
    ensures s[lo..hi][x..y] == s[lo + x..lo + y]
  {
    SplitSlice(s, lo, lo + y, hi);
    SplitSlice(s, lo, lo + x, lo + y);
  }

  /** memmove of what lies between from and end down to target. */
  method Cut(buf: array<u8>, target: nat, from: nat, end: nat)
    requires target <= from <= end <= buf.Length
    modifies buf
    ensures buf[..target] == old(buf[..target]) && buf[target + end - from..] == old(buf[target + end - from..])
    ensures buf[target..target + end - from] == old(buf[from..end])
  {
    forall i | target <= i < target + end - from {
      buf[i] := buf[i - target + from];
    }
    forall i | 0 <= i < end - from ensures buf[target..target + end - from][i] == old(buf[from..end])[i] {
      assert buf[target + i] == old(buf[from + i]);
    }
  }

  /** The body of rtw_ies_remove_ie's loop: take the first match out of the list in ies[start..end]. */
  method RemoveFirst(ies: array<u8>, start: nat, end: nat, key: Key, ghost es: seq<Element>)
    returns (target: int, newEnd: nat)
    requires start <= end <= ies.Length && ies[start..end] == Encode(es)
    requires key.Ext? && !ExtNonEmpty(es) ==> end < ies.Length
    modifies ies
    ensures start <= newEnd <= end && ies[..start] == old(ies[..start]) && ies[newEnd..] == old(ies[newEnd..])
    ensures var k := Seen(es, key, Behind(old(ies[..]), end));
            if k == |es| then target == -1 && newEnd == end && ies[start..end] == old(ies[start..end])
            else && start <= target <= newEnd == end - (2 + |es[k].data|)
                 && ies[start..target] == Encode(es[..k]) && ies[target..newEnd] == Encode(es[k + 1..])
  {
    hide *;
    ghost var k := Seen(es, key, Behind(ies[..], end));
    var len;
    target, len := GetIe(ies, start, end - start, key, es);
    newEnd := end;
    if target != -1 {
      EncodeSplit(es, k);
      var from := target + len + 2;
      newEnd := end - (len + 2);
      SplitSlice(ies[..], start, target, end);
      SplitSlice(ies[..], start, from, end);
      ghost var front, back := ies[..target], ies[from..end];
      Cut(ies, target, from, end);
      assert ies[..target] == front && ies[target..newEnd] == back;
      assert ies[..start] == front[..start];
      assert ies[start..target] == front[start..];
    }
  }

  /**
   What is left after all matches the walker sees have been taken out. behind is the byte that follows the
   list in memory: after a removal that is one of the list's old bytes, which are not cleared.
   */
  function Removed(es: seq<Element>, key: Key, behind: u8): seq<Element>
    decreases |es|
  {
    var k := Seen(es, key, behind);
    if k == |es| then es else es[..k] + Removed(es[k + 1..], key, LeftOver(es, k, behind))
  }

  /** The byte behind the list when element k has been taken out. */
  function LeftOver(es: seq<Element>, k: nat, behind: u8): u8
    requires k < |es|
  {
    ElementAt(es, k);
    (Encode(es) + [behind])[|Encode(es)| - (2 + |es[k].data|)]
  }

  /** All matches and nothing else, unless ID 255 elements lack their extension ID. */
  lemma {:induction false} RemovedIs(es: seq<Element>, key: Key, behind: u8)
    requires key.Id? || ExtNonEmpty(es)
    ensures Removed(es, key, behind) == Without(es, key)
    decreases |es|
  {
    hide *;
    var k := First(es, key);
    SeenExactly(es, key, behind);
    RemovedUnfolds(es, key, behind);
    WithoutUnfolds(es, key);
    if k < |es| {
      ExtOfRest(es, k);
      RemovedIs(es[k + 1..], key, LeftOver(es, k, behind));
    }
  }

  lemma WithoutUnfolds(es: seq<Element>, key: Key)
    ensures var k := First(es, key);
            Without(es, key) == if k == |es| then es else es[..k] + Without(es[k + 1..], key)
  {
    hide *;
    WithoutStep([], es, key);
    var k := First(es, key);
    assert [] + Without(es, key) == Without(es, key) && [] + es == es && [] + es[..k] == es[..k];
  }

  /** rtw_ies_remove_ie with offset 0: take out every match, searching on from where the last one was. */
  method RemoveIe(ies: array<u8>, iesLen: nat, key: Key, ghost es: seq<Element>) returns (newLen: nat)
    requires iesLen <= ies.Length && ies[..iesLen] == Encode(es)
    requires key.Ext? && !ExtNonEmpty(es) ==> iesLen < ies.Length
    modifies ies
    ensures newLen <= iesLen && ies[..newLen] == Encode(Removed(es, key, Behind(old(ies[..]), iesLen)))
    ensures key.Id? || ExtNonEmpty(es) ==> ies[..newLen] == Encode(Without(es, key))
  {
    hide *;
    EncodeNil();
    ghost var all := Removed(es, key, Behind(ies[..], iesLen));
    if key.Id? || ExtNonEmpty(es) {
      RemovedIs(es, key, Behind(ies[..], iesLen));
    }
    newLen := iesLen;
    var start: int := 0;
    ghost var kept: seq<Element>, rest := [], es;
    while start != -1
      invariant -1 <= start <= newLen <= iesLen
      invariant start != -1 ==> ies[..start] == Encode(kept) && ies[start..newLen] == Encode(rest)
      invariant start != -1 ==> all == kept + Removed(rest, key, Behind(ies[..], newLen))
      invariant start == -1 ==> ies[..newLen] == Encode(all)
      invariant key.Ext? && !ExtNonEmpty(rest) ==> newLen < ies.Length
      decreases start != -1, |rest|
    {
      ghost var behind := Behind(ies[..], newLen);
      ghost var k, front := Seen(rest, key, behind), ies[..start];
      RemovedStep(kept, rest, key, behind);
      EncodeConcat(kept, rest[..k]);
      BehindRemoved(ies[..], start, newLen, rest, k);
      ExtOfRest(rest, k);
      ghost var was := ies[..];
      var target, end := RemoveFirst(ies, start, newLen, key, rest);
      if target == -1 {
        assert rest[..k] == rest;
        assert ies[..newLen] == front + ies[start..newLen];
      } else {
        assert ies[..target] == front + ies[start..target];
        BehindSame(ies[..], was, end);
        kept, rest := kept + rest[..k], rest[k + 1..];
      }
      newLen := end;
      start := target;
    }
  }

  lemma BehindSame(a: seq<u8>, b: seq<u8>, i: nat)
    requires i <= |a| == |b| && a[i..] == b[i..]
    ensures Behind(a, i) == Behind(b, i)
  {
    if i < |a| {
      assert a[i] == a[i..][0] && b[i] == b[i..][0];
    }
  }

  lemma RemovedStep(kept: seq<Element>, es: seq<Element>, key: Key, behind: u8)
    ensures var k := Seen(es, key, behind);
            && k <= |es|
            && (k == |es| ==> kept + Removed(es, key, behind) == kept + es)
            && (k < |es| ==> kept + Removed(es, key, behind) ==
                               (kept + es[..k]) + Removed(es[k + 1..], key, LeftOver(es, k, behind)))
  {
    hide *;
    RemovedUnfolds(es, key, behind);
    var k := Seen(es, key, behind);
    if k < |es| {
      var rest := Removed(es[k + 1..], key, LeftOver(es, k, behind));
      assert kept + (es[..k] + rest) == (kept + es[..k]) + rest;
    }
  }

  lemma RemovedUnfolds(es: seq<Element>, key: Key, behind: u8)
    ensures var k := Seen(es, key, behind);
            && k <= |es|
            && Removed(es, key, behind) ==
                 if k == |es| then es else es[..k] + Removed(es[k + 1..], key, LeftOver(es, k, behind))
  {
    hide Seen, LeftOver;
  }

  /** Where the list in buf[start..end] will end without element k there is the byte that LeftOver names. */
  lemma BehindRemoved(buf: seq<u8>, start: nat, end: nat, es: seq<Element>, k: nat)
    requires start <= end <= |buf| && buf[start..end] == Encode(es) && k <= |es|
    ensures k < |es| ==>
              && start <= end - (2 + |es[k].data|)
              && Behind(buf, end - (2 + |es[k].data|)) == LeftOver(es, k, Behind(buf, end))
  {
    hide Encode;
    if k < |es| {
      ElementAt(es, k);
      var n := 2 + |es[k].data|;
      assert buf[start..end][end - start - n] == buf[end - n];
    }
  }

  lemma ExtOfRest(es: seq<Element>, k: nat)
    requires k <= |es|
    ensures ExtNonEmpty(es) && k < |es| ==> ExtNonEmpty(es[k + 1..])
  {
  }

  /** Dropping all matches drops the first and goes on behind it. */
  lemma WithoutStep(kept: seq<Element>, es: seq<Element>, key: Key)
    ensures First(es, key) == |es| ==> kept + Without(es, key) == kept + es
    ensures First(es, key) < |es| ==>
              kept + Without(es, key) == (kept + es[..First(es, key)]) + Without(es[First(es, key) + 1..], key)
  {
    hide *;
    var k := First(es, key);
    var front, back := es[..k], es[k..];
    assert es == front + back;
    WithoutConcat(front, back, key);
    WithoutNothing(front, key);
    WithoutHead(back, key);
    if k < |es| {
      assert back[1..] == es[k + 1..];
    }
    assert kept + (front + Without(back, key)) == (kept + front) + Without(back, key);
  }

  lemma WithoutHead(es: seq<Element>, key: Key)
    requires es == [] || Matches(es[0], key)
    ensures Without(es, key) == if es == [] then [] else Without(es[1..], key)
  {
  }
}
