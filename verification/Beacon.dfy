/**
 The beacon's element buffer (WLAN_BSSID_EX) and the two splices rtw_ap.c makes in it: rtw_add_bcn_ie
 puts an element before the first larger ID or over the one with the same ID, rtw_remove_bcn_ie
 takes one out.
 */
module Beacon {
  import opened Common
  import opened Elements

  const MAX_IE_SZ := 768
  const IE_HDR_LEN := 2
  const MAX_IE_LEN := IE_HDR_LEN + 255
  const FIXED_IE_LENGTH := 12

  // ----- the splices, as values -----

  /** Where rtw_add_bcn_ie's search stops: the first element whose ID is not below id. */
  function Stop(es: seq<Element>, id: u8): (k: nat)
    ensures k <= |es|
    ensures k < |es| ==> es[k].id >= id
    ensures forall j :: 0 <= j < k ==> es[j].id < id
  {
    if es == [] || es[0].id >= id then 0 else 1 + Stop(es[1..], id)
  }

  predicate StopsAtMatch(es: seq<Element>, id: u8) {
    Stop(es, id) < |es| && es[Stop(es, id)].id == id
  }

  /** The element to replace, or else the predecessor of the new one, exists and has data. */
  predicate HasPivot(es: seq<Element>, id: u8) {
    var k := Stop(es, id);
    if StopsAtMatch(es, id) then |es[k].data| > 0 else k > 0 && |es[k - 1].data| > 0
  }

  /** IELength of a beacon with these elements. */
  function Size(es: seq<Element>): nat {
    FIXED_IE_LENGTH + |Encode(es)|
  }

  /** The test for room, for n data bytes: it does not count the two header bytes. */
  predicate HasRoom(es: seq<Element>, n: nat) {
    Size(es) + n <= MAX_IE_SZ
  }

  predicate AddTakes(es: seq<Element>, e: Element) {
    HasRoom(es, |e.data|) && HasPivot(es, e.id)
  }

  function Add(es: seq<Element>, e: Element): seq<Element> {
    var k := Stop(es, e.id);
    if !AddTakes(es, e) then es
    else if StopsAtMatch(es, e.id) then es[..k] + [e] + es[k + 1..]
    else es[..k] + [e] + es[k..]
  }

  function Remove(es: seq<Element>, id: u8): seq<Element> {
    var k := First(es, Id(id));
    if k < |es| && |es[k].data| > 0 then es[..k] + es[k + 1..] else es
  }

  // ----- their laws -----

  predicate Sorted(es: seq<Element>) {
    forall i, j :: 0 <= i < j < |es| ==> es[i].id <= es[j].id
  }

  predicate Absent(es: seq<Element>, id: u8) {
    forall e :: e in es ==> e.id != id
  }

  lemma FirstInAdded(es: seq<Element>, e: Element)
    requires AddTakes(es, e)
    ensures First(Add(es, e), Id(e.id)) == Stop(es, e.id) < |Add(es, e)|
    ensures Add(es, e)[Stop(es, e.id)] == e
  {
    FirstIs(Add(es, e), Id(e.id), Stop(es, e.id));
  }

  lemma LookupSpliced(front: seq<Element>, mid: seq<Element>, back: seq<Element>, key: Key)
    ensures Lookup(front + mid + back, key) ==
              if Lookup(front, key).Some? then Lookup(front, key)
              else if Lookup(mid, key).Some? then Lookup(mid, key)
              else Lookup(back, key)
  {
    LookupConcat(front + mid, back, key);
    LookupConcat(front, mid, key);
  }

  /** An add that takes effect is what the next lookup of that ID finds; no other ID is touched. */
  lemma AddLookup(es: seq<Element>, e: Element, other: u8)
    ensures AddTakes(es, e) ==> Lookup(Add(es, e), Id(e.id)) == Some(e.data)
    ensures other != e.id ==> Lookup(Add(es, e), Id(other)) == Lookup(es, Id(other))
  {
    hide Lookup, Stop, First;
    if AddTakes(es, e) {
      var k := Stop(es, e.id);
      FirstInAdded(es, e);
      LookupFirst(Add(es, e), Id(e.id));
      LookupOne(e, Id(other));
      if StopsAtMatch(es, e.id) {
        LookupSpliced(es[..k], [e], es[k + 1..], Id(other));
        LookupSpliced(es[..k], [es[k]], es[k + 1..], Id(other));
        LookupOne(es[k], Id(other));
        assert es == es[..k] + [es[k]] + es[k + 1..];
      } else {
        LookupSpliced(es[..k], [e], es[k..], Id(other));
        LookupConcat(es[..k], es[k..], Id(other));
        assert es == es[..k] + es[k..];
      }
    }
  }

  lemma LookupOne(e: Element, key: Key)
    ensures Lookup([e], key) == if Matches(e, key) then Some(e.data) else None
  {
  }

  lemma AddKeepsSorted(es: seq<Element>, e: Element)
    requires Sorted(es)
    ensures Sorted(Add(es, e))
  {
    hide Stop, HasRoom, HasPivot;
  }

  /** Element k is the first whose ID is not below id, and with that ID has data, else its predecessor has. */
  predicate NextTo(es: seq<Element>, id: u8, k: int) {
    && 0 <= k <= |es| && (forall j :: 0 <= j < k ==> es[j].id < id) && (k < |es| ==> es[k].id >= id)
    && if k < |es| && es[k].id == id then es[k].data != [] else k > 0 && es[k - 1].data != []
  }

  lemma PivotMeans(es: seq<Element>, id: u8)
    ensures HasPivot(es, id) <==> exists k :: NextTo(es, id, k)
  {
    if k :| NextTo(es, id, k) {
      StopIs(es, id, k);
    }
    if HasPivot(es, id) {
      assert NextTo(es, id, Stop(es, id));
    }
  }

  /**
   Adding n bytes under an ID does what it is for, whatever the bytes are, exactly when the 12 fixed bytes,
   the elements and the n bytes are at most 768, and there is an element to put the new one next to; no
   bytes at all are also found if they were there before.
   */
  lemma AddWorksExactly(es: seq<Element>, id: u8, n: nat)
    requires n <= 255
    ensures (forall e: Element | e.id == id && |e.data| == n :: Lookup(Add(es, e), Id(id)) == Some(e.data))
        <==> || (12 + |Encode(es)| + n <= 768 && exists k :: NextTo(es, id, k))
             || (n == 0 && Lookup(es, Id(id)) == Some([]))
  {
    hide Lookup, Stop, HasPivot, Encode, NextTo;
    PivotMeans(es, id);
    if HasRoom(es, n) && HasPivot(es, id) {
      forall e: Element | e.id == id && |e.data| == n ensures Lookup(Add(es, e), Id(id)) == Some(e.data) {
        AddLookup(es, e, id);
      }
    } else {
      var one: Element, two: Element := Element(id, seq(n, i => 1)), Element(id, seq(n, i => 2));
      assert Add(es, one) == Add(es, two) == es;
      assert n > 0 ==> one.data[0] != two.data[0];
      assert n == 0 ==> one.data == [];
    }
  }

  /** On a list of nonempty elements whose first ID is below the new one there is always such an element. */
  lemma PivotWhenFirstIsBelow(es: seq<Element>, id: u8)
    requires es != [] && es[0].id < id && forall e :: e in es ==> |e.data| > 0
    ensures HasPivot(es, id)
  {
    var k := Stop(es, id);
    assert k > 0 && es[k - 1] in es;
    if StopsAtMatch(es, id) {
      assert es[k] in es;
    }
  }

  lemma AddedSize(es: seq<Element>, e: Element)
    requires AddTakes(es, e)
    ensures var k := Stop(es, e.id);
            Size(Add(es, e)) + (if StopsAtMatch(es, e.id) then IE_HDR_LEN + |es[k].data| else 0) ==
              Size(es) + IE_HDR_LEN + |e.data|
  {
    hide Encode, Stop, HasPivot;
    var k := Stop(es, e.id);
    EncodeOne(e);
    WireIs(e);
    if StopsAtMatch(es, e.id) {
      EncodeBetween(es, k, k + 1, [e]);
      ElementAt(es, k);
    } else {
      EncodeBetween(es, k, k, [e]);
    }
  }

  /**
   A beacon that fits is made too large exactly when a new element passes the test with less than two
   bytes to spare.
   */
  lemma OverflowsExactly(es: seq<Element>, e: Element)
    requires Size(es) <= 768
    ensures Size(Add(es, e)) > 768 <==>
              HasPivot(es, e.id) && !StopsAtMatch(es, e.id) && 766 < Size(es) + |e.data| <= 768
    ensures Size(Add(es, e)) <= 770
  {
    hide Encode, Size, Stop, HasPivot;
    if AddTakes(es, e) {
      AddedSize(es, e);
    }
  }

  /** For instance here: three data bytes pass the test and end two bytes behind the buffer. */
  lemma AddOverflows()
    ensures var es: seq<Element> := FullBeacon();
            && Size(es) == 765 && HasRoom(es, 3) && Size(Add(es, Element(37, [0, 11, 5]))) == 770
  {
    hide Encode, Stop;
    var es, e: Element := FullBeacon(), Element(37, [0, 11, 5]);
    FullBeaconSize();
    StopIs(es, 37, 3);
    AddedSize(es, e);
  }

  /** SSID, rates, channel and three vendor elements. */
  function FullBeacon(): seq<Element> {
    [Element(0, seq(32, i => 65)), Element(1, [130, 132, 139, 150, 12, 18, 24, 36]), Element(3, [11]),
     Element(221, seq(255, i => 0)), Element(221, seq(255, i => 0)), Element(221, seq(190, i => 0))]
  }

  lemma FullBeaconSize()
    ensures Size(FullBeacon()) == 765
  {
    hide Encode;
    var es := FullBeacon();
    EncodeNil();
    EncodedSize(es, 0);
    EncodedSize(es, 1);
    EncodedSize(es, 2);
    EncodedSize(es, 3);
    EncodedSize(es, 4);
    EncodedSize(es, 5);
    assert es[0..] == es && es[6..] == [];
  }

  lemma EncodedSize(es: seq<Element>, k: nat)
    requires k < |es|
    ensures |Encode(es[k..])| == IE_HDR_LEN + |es[k].data| + |Encode(es[k + 1..])|
  {
    assert es[k..][0] == es[k] && es[k..][1..] == es[k + 1..];
  }

  /** Removing after adding an absent ID gives back the list. */
  lemma RemoveUndoesAdd(es: seq<Element>, e: Element)
    requires Absent(es, e.id) && |e.data| > 0
    ensures Remove(Add(es, e), e.id) == es
  {
    hide Encode, Stop, HasRoom, HasPivot, First;
    if AddTakes(es, e) {
      FirstInAdded(es, e);
      AbsentStop(es, e.id);
      InsertedOut(es, Stop(es, e.id), e);
    } else {
      AbsentFirst(es, e.id);
    }
  }

  lemma AbsentStop(es: seq<Element>, id: u8)
    requires Absent(es, id)
    ensures !StopsAtMatch(es, id)
  {
    var k := Stop(es, id);
    if k < |es| {
      assert es[k] in es;
    }
  }

  lemma InsertedOut(es: seq<Element>, k: nat, e: Element)
    requires k <= |es|
    ensures var added := es[..k] + [e] + es[k..];
            added[k] == e && added[..k] + added[k + 1..] == es
  {
    var added := es[..k] + [e] + es[k..];
    assert added[..k] == es[..k] && added[k + 1..] == es[k..];
  }

  lemma AbsentFirst(es: seq<Element>, id: u8)
    requires Absent(es, id)
    ensures First(es, Id(id)) == |es|
  {
    forall j | 0 <= j < |es| ensures !Matches(es[j], Id(id)) {
      assert es[j] in es;
    }
    FirstIs(es, Id(id), |es|);
  }

  /** The remove takes out the first element with that ID, unless it has no data: then it does nothing. */
  lemma RemoveExactly(es: seq<Element>, id: u8)
    ensures Remove(es, id) == es <==> Lookup(es, Id(id)) in {None, Some([])}
    ensures Remove(es, id) != es ==> multiset(Remove(es, id)) == multiset(es) - multiset{es[First(es, Id(id))]}
  {
    hide First, Lookup;
    LookupFirst(es, Id(id));
    var k := First(es, Id(id));
    if k < |es| {
      assert es == es[..k] + [es[k]] + es[k + 1..];
    }
  }

  /** So the ID is gone exactly if at most one element had it, and that one had data. */
  lemma RemoveLeavesAbsent(es: seq<Element>, id: u8)
    ensures Absent(Remove(es, id), id) <==>
              && (forall i, j :: 0 <= i < |es| && 0 <= j < |es| && es[i].id == id && es[j].id == id ==> i == j)
              && (forall i :: 0 <= i < |es| && es[i].id == id ==> es[i].data != [])
  {
    var k, left := First(es, Id(id)), Remove(es, id);
    if k < |es| && es[k].data != [] {
      forall j | 0 <= j < |es| && j != k ensures es[j] == left[if j < k then j else j - 1] && es[j] in left {
        assert left[if j < k then j else j - 1] in left;
      }
    } else if k < |es| {
      assert es[k] in left;
    }
  }

  // ----- the buffer -----

  /**
   WLAN_BSSID_EX: IEs has MAX_IE_SZ bytes; the rest of the array stands for what follows it in memory, as
   far as the header of one element and then a whole one can reach.
   */
  class BssNetwork {
    const IEs: array<u8>
    var IELength: nat

    constructor (fixedPart: seq<u8>)
      requires |fixedPart| == FIXED_IE_LENGTH
      ensures Holds([]) && IEs[..FIXED_IE_LENGTH] == fixedPart && fresh(IEs)
    {
      IEs := new u8[MAX_IE_SZ + IE_HDR_LEN + MAX_IE_LEN];
      IELength := FIXED_IE_LENGTH;
      new;
      forall i | 0 <= i < FIXED_IE_LENGTH {
        IEs[i] := fixedPart[i];
      }
      assert IEs[FIXED_IE_LENGTH..IELength] == [];
    }

    /** The fixed fields are followed by exactly these elements. */
    ghost predicate Holds(es: seq<Element>)
      reads this, IEs
    {
      && FIXED_IE_LENGTH <= IELength <= IEs.Length == MAX_IE_SZ + IE_HDR_LEN + MAX_IE_LEN
      && IEs[FIXED_IE_LENGTH..IELength] == Encode(es)
    }

    /** The search of rtw_add_bcn_ie: the element to replace, or the one to append behind. */
    method SearchSlot(index: u8, ghost es: seq<Element>) returns (p: int, ielen: nat, bmatch: bool)
      requires Holds(es)
      ensures bmatch == StopsAtMatch(es, index)
      ensures var k := if bmatch then Stop(es, index) else Stop(es, index) - 1;
              if k < 0 then p == -1
              else k < |es| && p == FIXED_IE_LENGTH + Off(es, k) && ielen == |es[k].data|
    {
      hide Encode, Off, Stop;
      p, ielen, bmatch := -1, 0, false;
      var i := FIXED_IE_LENGTH;
      ghost var k := 0;
      OffEnds(es);
      while i < IELength
        invariant k <= |es| && i == FIXED_IE_LENGTH + Off(es, k) <= IELength
        invariant forall j :: 0 <= j < k ==> es[j].id < index
        invariant if k == 0 then p == -1 else p == FIXED_IE_LENGTH + Off(es, k - 1) && ielen == |es[k - 1].data|
        decreases IELength - i
      {
        AtEnd(es, k);
        ReadAt(es, k);
        if IEs[i] > index {
          StopIs(es, index, k);
          return;
        } else if IEs[i] == index {
          StopIs(es, index, k);
          return i, IEs[i + 1], true;
        }
        p, ielen := i, IEs[i + 1];
        i := i + IEs[i + 1] + 2;
        k := k + 1;
      }
      AtEnd(es, k);
      StopIs(es, index, k);
    }

    lemma ReadAt(es: seq<Element>, k: nat)
      requires Holds(es) && k < |es|
      ensures FIXED_IE_LENGTH + Off(es, k) + 2 + |es[k].data| == FIXED_IE_LENGTH + Off(es, k + 1) <= IELength
      ensures IEs[FIXED_IE_LENGTH + Off(es, k)] == es[k].id
      ensures IEs[FIXED_IE_LENGTH + Off(es, k) + 1] == |es[k].data|
    {
      hide Encode, Off;
      ElementAt(es, k);
      assert IEs[FIXED_IE_LENGTH..IELength][Off(es, k)] == IEs[FIXED_IE_LENGTH + Off(es, k)];
      assert IEs[FIXED_IE_LENGTH..IELength][Off(es, k) + 1] == IEs[FIXED_IE_LENGTH + Off(es, k) + 1];
    }

    /**
     What the driver does around every splice: save the remainder, write mid at dst, copy the
     remainder behind it, set IELength.
     */
    method Splice(dst: nat, remainder: nat, mid: seq<u8>)
      requires FIXED_IE_LENGTH <= dst <= remainder <= IELength <= IEs.Length
      requires dst + |mid| + (IELength - remainder) <= IEs.Length
      modifies this`IELength, IEs
      ensures IEs[..dst] == old(IEs[..dst])
      ensures IELength == dst + |mid| + old(IELength - remainder)
      ensures IEs[FIXED_IE_LENGTH..IELength] ==
                old(IEs[FIXED_IE_LENGTH..dst]) + mid + old(IEs[remainder..IELength])
      ensures IEs[IELength..] == old(IEs[..])[IELength..]
    {
      var backup := IEs[remainder..IELength];
      ghost var front := IEs[..dst];
      forall i | 0 <= i < |mid| {
        IEs[dst + i] := mid[i];
      }
      var at := dst + |mid|;
      forall i | 0 <= i < |backup| {
        IEs[at + i] := backup[i];
      }
      IELength := at + |backup|;
      assert IEs[..dst] == front;
      assert IEs[FIXED_IE_LENGTH..dst] == front[FIXED_IE_LENGTH..];
      assert IEs[dst..at] == mid;
      assert IEs[at..IELength] == backup;
      JoinSlices(IEs[..], FIXED_IE_LENGTH, dst, at, IELength);
    }

    /** A splice between element boundaries replaces whole elements. */
    method SpliceElements(dst: nat, remainder: nat, mid: seq<u8>,
                          ghost es: seq<Element>, ghost k: nat, ghost from: nat, ghost ms: seq<Element>)
      requires Holds(es) && k <= from <= |es| && mid == Encode(ms)
      requires dst == FIXED_IE_LENGTH + Off(es, k) && remainder == FIXED_IE_LENGTH + Off(es, from)
      requires dst <= remainder <= IELength
      requires dst + |mid| + (IELength - remainder) <= IEs.Length
      modifies this`IELength, IEs
      ensures Holds(es[..k] + ms + es[from..])
      ensures IEs[IELength..] == old(IEs[..])[IELength..]
      ensures IEs[..FIXED_IE_LENGTH] == old(IEs[..FIXED_IE_LENGTH])
    {
      hide Encode, Off;
      EncodeBetween(es, k, from, ms);
      ghost var front := IEs[..dst];
      SplitSlice(IEs[..], FIXED_IE_LENGTH, dst, IELength);
      SplitSlice(IEs[..], FIXED_IE_LENGTH, remainder, IELength);
      Splice(dst, remainder, mid);
      assert IEs[..FIXED_IE_LENGTH] == front[..FIXED_IE_LENGTH];
    }

    /** rtw_add_bcn_ie; nothing behind the new length is written. */
    method AddBcnIe(index: u8, data: seq<u8>, ghost es: seq<Element>)
      requires Holds(es) && |data| <= 255
      modifies this`IELength, IEs
      ensures Holds(Add(es, Element(index, data))) && IELength == Size(Add(es, Element(index, data)))
      ensures IEs[..FIXED_IE_LENGTH] == old(IEs[..FIXED_IE_LENGTH])
      ensures IEs[IELength..] == old(IEs[..])[IELength..]
    {
      hide Encode, Off, Stop, Wire;
      if IELength + |data| > MAX_IE_SZ {
        return;
      }
      var p, ielen, bmatch := SearchSlot(index, es);
      if p == -1 || ielen == 0 {
        return;
      }
      ghost var k := Stop(es, index);
      if bmatch {
        ReadAt(es, k);
      } else {
        ReadAt(es, k - 1);
      }
      ielen := ielen + 2;
      var dst := if bmatch then p else p + ielen;
      ghost var e: Element := Element(index, data);
      EncodeOne(e);
      WireIs(e);
      SpliceElements(dst, p + ielen, [index, |data|] + data, es, k, if bmatch then k + 1 else k, [e]);
    }

    /** Overwrite data byte at of element k, which starts at p. */
    method SetDataByte(p: nat, at: nat, value: u8, ghost es: seq<Element>, ghost k: nat)
      requires Holds(es) && k < |es| && p == FIXED_IE_LENGTH + Off(es, k) && at < |es[k].data|
      modifies IEs
      ensures IEs[..FIXED_IE_LENGTH] == old(IEs[..FIXED_IE_LENGTH])
      ensures Holds(es[..k] + [Element(es[k].id, es[k].data[at := value])] + es[k + 1..])
    {
      hide Encode, Off;
      ghost var e: Element := Element(es[k].id, es[k].data[at := value]);
      ghost var bytes := IEs[FIXED_IE_LENGTH..IELength];
      ReadAt(es, k);
      EncodeBetween(es, k, k + 1, [e]);
      EncodeBetween(es, k, k + 1, [es[k]]);
      EncodeOne(e);
      EncodeOne(es[k]);
      assert es[..k] + [es[k]] + es[k + 1..] == es;
      IEs[p + 2 + at] := value;
      assert IEs[FIXED_IE_LENGTH..IELength] == bytes[Off(es, k) + 2 + at := value];
    }

    /** rtw_remove_bcn_ie */
    method RemoveBcnIe(index: u8, ghost es: seq<Element>)
      requires Holds(es)
      modifies this`IELength, IEs
      ensures IEs[..FIXED_IE_LENGTH] == old(IEs[..FIXED_IE_LENGTH])
      ensures Holds(Remove(es, index))
      ensures IEs[IELength..] == old(IEs[..])[IELength..]
    {
      hide Encode, Off, First, Seen, Behind;
      var p, ielen := GetIe(IEs, FIXED_IE_LENGTH, IELength - FIXED_IE_LENGTH, Id(index), es);
      if p == -1 || ielen == 0 {
        return;
      }
      ghost var k := First(es, Id(index));
      ReadAt(es, k);
      EncodeNil();
      SpliceElements(p, p + ielen + 2, [], es, k, k + 1, []);
      NothingBetween(es[..k], es[k + 1..]);
    }
  }

  lemma NothingBetween(a: seq<Element>, b: seq<Element>)
    ensures a + [] + b == a + b
  {
  }

  lemma JoinSlices(s: seq<u8>, a: nat, b: nat, c: nat, d: nat)
    requires a <= b <= c <= d <= |s|
    ensures s[a..d] == s[a..b] + s[b..c] + s[c..d]
  {
  }

  lemma WireIs(e: Element)
    ensures Wire(e) == [e.id, |e.data|] + e.data
  {
  }

  lemma StopIs(es: seq<Element>, id: u8, k: nat)
    requires k <= |es|
    requires forall j :: 0 <= j < k ==> es[j].id < id
    requires k < |es| ==> es[k].id >= id
    ensures Stop(es, id) == k
  {
  }

  /** The wire form with ms put in place of the elements from k up to from. */
  lemma EncodeBetween(es: seq<Element>, k: nat, from: nat, ms: seq<Element>)
    requires k <= from <= |es|
    ensures Off(es, k) <= Off(es, from) <= |Encode(es)|
    ensures Encode(es[..k] + ms + es[from..]) == Encode(es)[..Off(es, k)] + Encode(ms) + Encode(es)[Off(es, from)..]
  {
    hide Encode;
    EncodeConcat(es[..k], es[k..from]);
    EncodeConcat(es[..from], es[from..]);
    assert es[..from] == es[..k] + es[k..from] && es == es[..from] + es[from..];
    EncodeConcat(es[..k], ms);
    EncodeConcat(es[..k] + ms, es[from..]);
  }
}
