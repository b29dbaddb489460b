/**
 Multi-link inheritance (rtw_eht.c). One link's element list is sent as a difference against the
 primary link's list: the elements that differ, then one Non-Inheritance element naming what the
 primary list has and this link has not (section 9.4.2.240 of IEEE Std 802.11-2020). The receiver
 patches its copy of the primary list with it.
 */
module Inheritance {
  import opened Common
  import opened Elements

  const VENDOR_SPECIFIC: u8 := 221
  const EXT_NON_INHERITANCE: u8 := 56

  function KeyOf(e: Element): Key {
    if e.id == EID_EXTENSION && |e.data| > 0 then Ext(e.data[0]) else Id(e.id)
  }

  /** A key of some element: ID 255 alone names no element, it needs an extension ID. */
  predicate Proper(key: Key) {
    key != Id(EID_EXTENSION)
  }

  predicate UniqueKeys(es: seq<Element>) {
    forall i, j :: 0 <= i < j < |es| ==> KeyOf(es[i]) != KeyOf(es[j])
  }

  predicate IsNonInheritance(e: Element) {
    KeyOf(e) == Ext(EXT_NON_INHERITANCE)
  }

  // ----- the difference, as a value -----

  predicate Differs(e: Element, primary: seq<Element>) {
    match Lookup(primary, KeyOf(e))
    case None => true
    case Some(data) => e.data != data && e.id != VENDOR_SPECIFIC
  }

  function Changed(cur: seq<Element>, primary: seq<Element>): seq<Element> {
    if cur == [] then []
    else if Differs(cur[0], primary) then [cur[0]] + Changed(cur[1..], primary)
    else Changed(cur[1..], primary)
  }

  /** What the Non-Inheritance element lists for an element e that has to go. */
  function GoneId(e: Element): seq<u8> {
    if e.id == EID_EXTENSION then [] else [e.id]
  }

  function GoneExt(e: Element): seq<u8>
    requires e.id == EID_EXTENSION ==> |e.data| > 0
  {
    if e.id == EID_EXTENSION then [e.data[0]] else []
  }

  function GoneIds(primary: seq<Element>, cur: seq<Element>): seq<u8> {
    if primary == [] then []
    else if Lookup(cur, KeyOf(primary[0])).Some? then GoneIds(primary[1..], cur)
    else GoneId(primary[0]) + GoneIds(primary[1..], cur)
  }

  function GoneExts(primary: seq<Element>, cur: seq<Element>): seq<u8>
    requires ExtNonEmpty(primary)
  {
    if primary == [] then []
    else if Lookup(cur, KeyOf(primary[0])).Some? then GoneExts(primary[1..], cur)
    else GoneExt(primary[0]) + GoneExts(primary[1..], cur)
  }

  /** The counts and the element length are single bytes. */
  predicate GoneFits(ids: seq<u8>, exts: seq<u8>) {
    3 + |ids| + |exts| <= 255
  }

  function NonInheritance(ids: seq<u8>, exts: seq<u8>): Element
    requires GoneFits(ids, exts)
  {
    Element(EID_EXTENSION, [EXT_NON_INHERITANCE, |ids|] + ids + [|exts|] + exts)
  }

  function Patch(cur: seq<Element>, primary: seq<Element>): seq<Element>
    requires ExtNonEmpty(primary)
    requires GoneFits(GoneIds(primary, cur), GoneExts(primary, cur))
  {
    var ids, exts := GoneIds(primary, cur), GoneExts(primary, cur);
    Changed(cur, primary) + if |ids| + |exts| > 0 then [NonInheritance(ids, exts)] else []
  }

  // ----- patching, as a value -----

  /** The lists inside a Non-Inheritance element stay within its data. */
  predicate WellFormedPatch(patch: seq<Element>) {
    && ExtNonEmpty(patch)
    && forall p :: p in patch && IsNonInheritance(p) ==> WellFormedNonInheritance(p.data)
  }

  predicate WellFormedNonInheritance(data: seq<u8>) {
    |data| >= 3 && 2 + data[1] < |data| && 3 + data[1] + data[2 + data[1]] <= |data|
  }

  function ListedIds(data: seq<u8>): seq<u8>
    requires WellFormedNonInheritance(data)
  {
    data[2..2 + data[1]]
  }

  function ListedExts(data: seq<u8>): seq<u8>
    requires WellFormedNonInheritance(data)
  {
    var n: int := data[1];
    var at := 2 + n;
    data[at + 1..at + 1 + data[at]]
  }

  function ListedKey(x: u8, ext: bool): Key {
    if ext then Ext(x) else Id(x)
  }

  /** Remove every element whose ID (or extension ID) is listed. */
  function Drop(es: seq<Element>, listed: seq<u8>, ext: bool): seq<Element>
    decreases listed
  {
    if listed == [] then es else Drop(Without(es, ListedKey(listed[0], ext)), listed[1..], ext)
  }

  function ApplyOne(es: seq<Element>, p: Element): seq<Element>
    requires WellFormedPatch([p])
  {
    assert p in [p];
    if IsNonInheritance(p) then Drop(Drop(es, ListedIds(p.data), false), ListedExts(p.data), true)
    else Without(es, KeyOf(p)) + [p]
  }

  function Apply(es: seq<Element>, patch: seq<Element>): seq<Element>
    requires WellFormedPatch(patch)
    decreases patch
  {
    if patch == [] then es
    else
      assert WellFormedPatch([patch[0]]);
      Apply(ApplyOne(es, patch[0]), patch[1..])
  }

  // ----- the round trip -----

  /** The elements of a key, in order. */
  function Select(es: seq<Element>, key: Key): seq<Element> {
    if es == [] then []
    else if Matches(es[0], key) then [es[0]] + Select(es[1..], key)
    else Select(es[1..], key)
  }

  lemma MatchesKeyOf(e: Element, key: Key)
    requires Proper(key) && (e.id == EID_EXTENSION ==> |e.data| > 0)
    ensures Matches(e, key) <==> KeyOf(e) == key
  {
  }

  /** A lookup finds the first of them. */
  lemma {:induction false} LookupSelects(es: seq<Element>, key: Key)
    ensures Lookup(es, key) == var of := Select(es, key); if of == [] then None else Some(of[0].data)
    ensures forall e :: e in Select(es, key) <==> e in es && Matches(e, key)
  {
    if es != [] {
      LookupSelects(es[1..], key);
      assert es == [es[0]] + es[1..];
    }
  }

  lemma {:induction false} SelectConcat(a: seq<Element>, b: seq<Element>, key: Key)
    ensures Select(a + b, key) == Select(a, key) + Select(b, key)
  {
    if a == [] {
      assert a + b == b;
    } else {
      assert (a + b)[1..] == a[1..] + b;
      SelectConcat(a[1..], b, key);
    }
  }

  lemma {:induction false} SelectWithout(es: seq<Element>, gone: Key, key: Key)
    requires Proper(key) && Proper(gone)
    ensures Select(Without(es, gone), key) == if key == gone then [] else Select(es, key)
  {
    if es != [] {
      SelectWithout(es[1..], gone, key);
      SelectConcat([es[0]], Without(es[1..], gone), key);
      assert [es[0]][1..] == [];
    }
  }

  lemma SelectOne(e: Element, key: Key)
    requires Proper(key) && (e.id == EID_EXTENSION ==> |e.data| > 0)
    ensures Select([e], key) == if KeyOf(e) == key then [e] else []
  {
    assert [e][1..] == [];
  }

  lemma {:induction false} ApplyConcat(es: seq<Element>, a: seq<Element>, b: seq<Element>)
    requires WellFormedPatch(a) && WellFormedPatch(b) && WellFormedPatch(a + b)
    ensures Apply(es, a + b) == Apply(Apply(es, a), b)
    decreases a
  {
    if a == [] {
      assert a + b == b;
    } else {
      assert (a + b)[1..] == a[1..] + b;
      assert WellFormedPatch([a[0]]);
      ApplyConcat(ApplyOne(es, a[0]), a[1..], b);
    }
  }

  /** Elements of the difference replace all those with their key; of several with one key the last stays. */
  lemma {:induction false} ApplyOverrides(es: seq<Element>, c: seq<Element>, key: Key)
    requires Proper(key) && WellFormedPatch(c)
    requires forall p :: p in c ==> !IsNonInheritance(p)
    ensures Select(Apply(es, c), key) == var of := Select(c, key); if of == [] then Select(es, key) else [of[|of| - 1]]
    decreases c
  {
    hide Matches, IsNonInheritance, Apply, Without;
    if c == [] {
      ApplyNothing(es);
    } else {
      var p := c[0];
      assert WellFormedPatch([p]) && p in c;
      ApplyFirst(es, c);
      ApplyOverrides(ApplyOne(es, p), c[1..], key);
      ReplacedSelect(es, p, key);
      MatchesKeyOf(p, key);
    }
  }

  lemma ApplyNothing(es: seq<Element>)
    ensures Apply(es, []) == es
  {
  }

  lemma ApplyFirst(es: seq<Element>, c: seq<Element>)
    requires c != [] && WellFormedPatch(c)
    ensures WellFormedPatch([c[0]]) && WellFormedPatch(c[1..])
    ensures Apply(es, c) == Apply(ApplyOne(es, c[0]), c[1..])
  {
    assert WellFormedPatch([c[0]]);
  }

  lemma ReplacedSelect(es: seq<Element>, p: Element, key: Key)
    requires Proper(key) && WellFormedPatch([p]) && !IsNonInheritance(p)
    ensures Select(ApplyOne(es, p), key) == if KeyOf(p) == key then [p] else Select(es, key)
  {
    hide Select, Without, IsNonInheritance;
    assert p in [p];
    KeyIsProper(p);
    SelectConcat(Without(es, KeyOf(p)), [p], key);
    SelectWithout(es, KeyOf(p), key);
    SelectOne(p, key);
  }

  lemma KeyIsProper(e: Element)
    requires e.id == EID_EXTENSION ==> |e.data| > 0
    ensures Proper(KeyOf(e))
  {
  }

  /** Dropping the listed keys removes their elements and no other. */
  lemma {:induction false} Dropped(es: seq<Element>, listed: seq<u8>, ext: bool, key: Key)
    requires Proper(key) && (ext || EID_EXTENSION !in listed)
    ensures Select(Drop(es, listed, ext), key) ==
              if (if ext then key.Ext? && key.ext in listed else key.Id? && key.id in listed) then []
              else Select(es, key)
    decreases listed
  {
    hide Matches;
    if listed != [] {
      var gone := ListedKey(listed[0], ext);
      Dropped(Without(es, gone), listed[1..], ext, key);
      SelectWithout(es, gone, key);
    }
  }

  predicate IsGone(ids: seq<u8>, exts: seq<u8>, key: Key) {
    match key
    case Id(i) => i in ids
    case Ext(x) => x in exts
  }

  /** The Non-Inheritance element names exactly the keys of the primary list that cur lacks. */
  lemma {:induction false} GoneExactly(primary: seq<Element>, cur: seq<Element>, key: Key)
    requires Proper(key) && ExtNonEmpty(primary)
    ensures IsGone(GoneIds(primary, cur), GoneExts(primary, cur), key)
        <==> Lookup(primary, key).Some? && Lookup(cur, key).None?
    ensures EID_EXTENSION !in GoneIds(primary, cur)
  {
    if primary != [] {
      GoneExactly(primary[1..], cur, key);
      MatchesKeyOf(primary[0], key);
    }
  }

  /** An element is carried if it is new, or is no vendor element (ID 221) and has other data. */
  lemma {:induction false} ChangedElements(cur: seq<Element>, primary: seq<Element>)
    ensures forall e :: e in Changed(cur, primary) <==> e in cur && Differs(e, primary)
    ensures forall e :: Differs(e, primary) <==>
              Lookup(primary, KeyOf(e)) == None || (e.id != 221 && Lookup(primary, KeyOf(e)) != Some(e.data))
    ensures UniqueKeys(cur) ==> UniqueKeys(Changed(cur, primary))
  {
    if cur != [] {
      ChangedElements(cur[1..], primary);
      if UniqueKeys(cur) {
        var rest := Changed(cur[1..], primary);
        assert UniqueKeys(cur[1..]);
        assert forall e :: e in rest ==> KeyOf(e) != KeyOf(cur[0]);
        assert UniqueKeys([cur[0]] + rest);
      }
    }
  }

  /** Of every key the difference carries the elements that differ. */
  lemma {:induction false} ChangedOfKey(cur: seq<Element>, primary: seq<Element>, key: Key)
    ensures Select(Changed(cur, primary), key) == Changed(Select(cur, key), primary)
  {
    hide Differs;
    if cur != [] {
      var rest := cur[1..];
      ChangedOfKey(rest, primary, key);
      assert ([cur[0]] + Changed(rest, primary))[1..] == Changed(rest, primary);
      assert ([cur[0]] + Select(rest, key))[1..] == Select(rest, key);
    }
  }

  lemma PatchIsWellFormed(cur: seq<Element>, primary: seq<Element>)
    requires ExtNonEmpty(primary) && ExtNonEmpty(cur)
    requires GoneFits(GoneIds(primary, cur), GoneExts(primary, cur))
    requires forall e :: e in cur ==> !IsNonInheritance(e)
    ensures WellFormedPatch(Changed(cur, primary)) && WellFormedPatch(Patch(cur, primary))
    ensures forall e :: e in Changed(cur, primary) ==> !IsNonInheritance(e)
  {
    ChangedElements(cur, primary);
    var ids, exts := GoneIds(primary, cur), GoneExts(primary, cur);
    NonInheritanceLists(ids, exts);
  }

  lemma NonInheritanceLists(ids: seq<u8>, exts: seq<u8>)
    requires GoneFits(ids, exts)
    ensures WellFormedPatch([NonInheritance(ids, exts)])
    ensures ListedIds(NonInheritance(ids, exts).data) == ids
    ensures ListedExts(NonInheritance(ids, exts).data) == exts
    ensures Wire(NonInheritance(ids, exts)) ==
              [255, 3 + |ids| + |exts|, 56, |ids|] + ids + [|exts|] + exts
  {
    var data := NonInheritance(ids, exts).data;
    assert data[2..2 + |ids|] == ids;
    assert data[2 + |ids|] == |exts|;
    assert data[3 + |ids|..3 + |ids| + |exts|] == exts;
  }

  /** Applying the Non-Inheritance element at the end takes out the keys that cur lacks. */
  lemma PatchDrops(cur: seq<Element>, primary: seq<Element>, key: Key)
    requires Proper(key) && ExtNonEmpty(primary) && ExtNonEmpty(cur)
    requires GoneFits(GoneIds(primary, cur), GoneExts(primary, cur))
    requires WellFormedPatch(Changed(cur, primary)) && WellFormedPatch(Patch(cur, primary))
    ensures Select(Apply(primary, Patch(cur, primary)), key) ==
              if Lookup(primary, key).Some? && Lookup(cur, key).None? then []
              else Select(Apply(primary, Changed(cur, primary)), key)
  {
    hide Lookup, Select, Changed;
    var ids, exts := GoneIds(primary, cur), GoneExts(primary, cur);
    GoneExactly(primary, cur, key);
    var middle := Apply(primary, Changed(cur, primary));
    if |ids| + |exts| > 0 {
      var nih := NonInheritance(ids, exts);
      NonInheritanceLists(ids, exts);
      ApplyConcat(primary, Changed(cur, primary), [nih]);
      assert Apply(middle, [nih]) == ApplyOne(middle, nih);
      Dropped(middle, ids, false, key);
      Dropped(Drop(middle, ids, false), exts, true, key);
    } else {
      assert Patch(cur, primary) == Changed(cur, primary);
    }
  }

  /**
   What patching the primary list with the difference leaves of a key: nothing if cur has nothing of it,
   the last element that differs, or the primary list's elements if none does.
   */
  lemma PatchedSelect(cur: seq<Element>, primary: seq<Element>, key: Key)
    requires Proper(key) && ExtNonEmpty(primary) && ExtNonEmpty(cur)
    requires GoneFits(GoneIds(primary, cur), GoneExts(primary, cur))
    requires forall e :: e in cur ==> !IsNonInheritance(e)
    requires WellFormedPatch(Patch(cur, primary))
    ensures Select(Apply(primary, Patch(cur, primary)), key) ==
              var mine, carried := Select(cur, key), Changed(Select(cur, key), primary);
              if mine == [] then []
              else if carried == [] then Select(primary, key)
              else [carried[|carried| - 1]]
  {
    hide Lookup, Differs, Matches, WellFormedPatch, IsNonInheritance;
    PatchIsWellFormed(cur, primary);
    PatchDrops(cur, primary, key);
    ApplyOverrides(primary, Changed(cur, primary), key);
    ChangedOfKey(cur, primary, key);
    LookupSelects(cur, key);
    LookupSelects(primary, key);
  }

  /** And so what a lookup finds, if cur has one element of each key: a vendor element of the primary list stays. */
  lemma PatchedLookup(cur: seq<Element>, primary: seq<Element>, key: Key)
    requires Proper(key) && ExtNonEmpty(primary) && ExtNonEmpty(cur) && UniqueKeys(cur)
    requires GoneFits(GoneIds(primary, cur), GoneExts(primary, cur))
    requires forall e :: e in cur ==> !IsNonInheritance(e)
    requires WellFormedPatch(Patch(cur, primary))
    ensures Lookup(Apply(primary, Patch(cur, primary)), key) ==
              if key == Id(221) && Lookup(cur, key).Some? && Lookup(primary, key).Some?
              then Lookup(primary, key) else Lookup(cur, key)
  {
    hide WellFormedPatch, IsNonInheritance, Patch, Apply, Matches, Lookup;
    PatchedSelect(cur, primary, key);
    LookupSelects(Apply(primary, Patch(cur, primary)), key);
    LookupSelects(cur, key);
    LookupSelects(primary, key);
    OneOfKey(cur, key);
    var mine := Select(cur, key);
    if mine != [] {
      assert mine[0] in mine && mine[1..] == [];
      MatchesKeyOf(mine[0], key);
      KeyOfVendor(mine[0]);
    }
  }

  lemma KeyOfVendor(e: Element)
    ensures e.id == VENDOR_SPECIFIC <==> KeyOf(e) == Id(VENDOR_SPECIFIC)
  {
  }

  lemma {:induction false} OneOfKey(es: seq<Element>, key: Key)
    requires Proper(key) && ExtNonEmpty(es) && UniqueKeys(es)
    ensures |Select(es, key)| <= 1
  {
    if es != [] {
      var rest := es[1..];
      OneOfKey(rest, key);
      MatchesKeyOf(es[0], key);
      LookupSelects(rest, key);
      forall e | e in rest ensures KeyOf(e) != KeyOf(es[0]) {
        var i :| 0 <= i < |rest| && rest[i] == e;
        assert es[i + 1] == e;
      }
      forall e | e in Select(rest, key) ensures KeyOf(e) == key {
        MatchesKeyOf(e, key);
      }
      assert Select(rest, key) != [] ==> Select(rest, key)[0] in Select(rest, key);
    }
  }

  /** An element of the key that differs is the only one, or none differs and the primary list has the same ones. */
  predicate Carried(cur: seq<Element>, primary: seq<Element>, key: Key) {
    var mine := Select(cur, key);
    if exists e :: e in mine && Differs(e, primary) then |mine| == 1 else mine == [] || mine == Select(primary, key)
  }

  /**
   Patching the primary list with the difference gives back the elements of cur, key by key, exactly if
   that holds of every key: so one vendor element that differs in both lists does not come back, nor do
   several new ones.
   */
  lemma RoundTrip(cur: seq<Element>, primary: seq<Element>)
    requires ExtNonEmpty(primary) && ExtNonEmpty(cur)
    requires GoneFits(GoneIds(primary, cur), GoneExts(primary, cur))
    requires forall e :: e in cur ==> !IsNonInheritance(e)
    ensures WellFormedPatch(Patch(cur, primary))
    ensures (forall key | Proper(key) :: Select(Apply(primary, Patch(cur, primary)), key) == Select(cur, key))
        <==> forall key | Proper(key) :: Carried(cur, primary, key)
  {
    hide Select, Differs, Apply, Patch, Carried, WellFormedPatch, Changed;
    PatchIsWellFormed(cur, primary);
    forall key | Proper(key)
      ensures Select(Apply(primary, Patch(cur, primary)), key) == Select(cur, key) <==> Carried(cur, primary, key)
    {
      PatchedSelect(cur, primary, key);
      CarriedIff(cur, primary, key);
    }
  }

  lemma CarriedIff(cur: seq<Element>, primary: seq<Element>, key: Key)
    ensures Carried(cur, primary, key) <==>
              var mine, carried := Select(cur, key), Changed(Select(cur, key), primary);
              mine == if mine == [] then []
                      else if carried == [] then Select(primary, key)
                      else [carried[|carried| - 1]]
  {
    hide Select, Differs;
    var mine, carried := Select(cur, key), Changed(Select(cur, key), primary);
    ChangedElements(mine, primary);
    assert forall e :: e in mine && Differs(e, primary) ==> e in carried;
    if carried != [] {
      assert carried[|carried| - 1] in carried;
    }
    if |mine| == 1 {
      assert mine[1..] == [];
    }
  }

  /** Both lists have a vendor element and the two differ: the difference never carries it. */
  predicate VendorConflict(cur: seq<Element>, primary: seq<Element>) {
    var v := Id(221);
    Lookup(cur, v).Some? && Lookup(primary, v).Some? && Lookup(cur, v) != Lookup(primary, v)
  }

  /** With one element of each key in cur this is the only way to fail, by what lookups find. */
  lemma RoundTripUnique(cur: seq<Element>, primary: seq<Element>)
    requires ExtNonEmpty(primary) && ExtNonEmpty(cur) && UniqueKeys(cur)
    requires GoneFits(GoneIds(primary, cur), GoneExts(primary, cur))
    requires forall e :: e in cur ==> !IsNonInheritance(e)
    ensures WellFormedPatch(Patch(cur, primary))
    ensures (forall key | Proper(key) :: Lookup(Apply(primary, Patch(cur, primary)), key) == Lookup(cur, key))
        <==> !VendorConflict(cur, primary)
  {
    hide Lookup, Apply, Patch, WellFormedPatch, IsNonInheritance;
    PatchIsWellFormed(cur, primary);
    forall key | Proper(key)
      ensures Lookup(Apply(primary, Patch(cur, primary)), key) ==
                if key == Id(VENDOR_SPECIFIC) && Lookup(cur, key).Some? && Lookup(primary, key).Some?
                then Lookup(primary, key) else Lookup(cur, key)
    {
      PatchedLookup(cur, primary, key);
    }
    assert Proper(Id(VENDOR_SPECIFIC));
  }

  // ----- the length byte -----

  /** The length of the difference as a byte is the length of its first k elements. */
  predicate CutAt(patch: seq<Element>, k: nat) {
    k <= |patch| && Off(patch, k) == |Encode(patch)| % 256
  }

  /** An element of the difference that gets lost shows in a lookup. */
  lemma LostShows(cur: seq<Element>, primary: seq<Element>, k: nat) returns (key: Key)
    requires ExtNonEmpty(primary) && ExtNonEmpty(cur) && UniqueKeys(cur)
    requires GoneFits(GoneIds(primary, cur), GoneExts(primary, cur))
    requires forall e :: e in cur ==> !IsNonInheritance(e)
    requires k < |Patch(cur, primary)|
    ensures WellFormedPatch(Patch(cur, primary)[..k]) && Proper(key)
    ensures Lookup(Apply(primary, Patch(cur, primary)[..k]), key) != Lookup(cur, key)
  {
    hide Apply, Changed, Select, Lookup, GoneIds, GoneExts;
    var changed, ids, exts := Changed(cur, primary), GoneIds(primary, cur), GoneExts(primary, cur);
    var sent := Patch(cur, primary)[..k];
    PatchIsWellFormed(cur, primary);
    ChangedElements(cur, primary);
    if k < |changed| {
      assert sent == changed[..k] && changed[k] in changed;
      key := KeyOf(changed[k]);
      KeyIsProper(changed[k]);
      AbsentSelect(sent, key);
      OnlySelect(cur, changed[k]);
    } else {
      assert sent == changed;
      GoneExactly(primary, cur, Id(0));
      key := if ids != [] then Id(ids[0]) else Ext(exts[0]);
      GoneExactly(primary, cur, key);
      LookupSelects(cur, key);
      ChangedOfKey(cur, primary, key);
      ChangedNothing(primary);
    }
    ApplyOverrides(primary, sent, key);
    LookupSelects(Apply(primary, sent), key);
    LookupSelects(primary, key);
    LookupSelects(cur, key);
  }

  lemma ChangedNothing(primary: seq<Element>)
    ensures Changed([], primary) == []
  {
  }

  lemma ChangedCons(e: Element, rest: seq<Element>, primary: seq<Element>)
    ensures Changed([e] + rest, primary) == (if Differs(e, primary) then [e] else []) + Changed(rest, primary)
  {
    hide Differs;
    assert ([e] + rest)[1..] == rest;
  }

  lemma {:induction false} AbsentSelect(es: seq<Element>, key: Key)
    requires Proper(key) && ExtNonEmpty(es) && forall e :: e in es ==> KeyOf(e) != key
    ensures Select(es, key) == []
  {
    if es != [] {
      MatchesKeyOf(es[0], key);
      AbsentSelect(es[1..], key);
    }
  }

  lemma OnlySelect(es: seq<Element>, e: Element)
    requires ExtNonEmpty(es) && UniqueKeys(es) && e in es
    ensures Select(es, KeyOf(e)) == [e]
  {
    hide Select;
    KeyIsProper(e);
    MatchesKeyOf(e, KeyOf(e));
    LookupSelects(es, KeyOf(e));
    OneOfKey(es, KeyOf(e));
    assert e in Select(es, KeyOf(e));
  }

  /**
   With one element of each key in cur, what is sent by the length byte gives back cur exactly if the
   difference is shorter than 256 bytes and no vendor element differs in both lists.
   */
  lemma RoundTripByLength(cur: seq<Element>, primary: seq<Element>, k: nat)
    requires ExtNonEmpty(primary) && ExtNonEmpty(cur) && UniqueKeys(cur)
    requires GoneFits(GoneIds(primary, cur), GoneExts(primary, cur))
    requires forall e :: e in cur ==> !IsNonInheritance(e)
    requires CutAt(Patch(cur, primary), k)
    ensures WellFormedPatch(Patch(cur, primary)[..k])
    ensures (forall key | Proper(key) :: Lookup(Apply(primary, Patch(cur, primary)[..k]), key) == Lookup(cur, key))
        <==> |Encode(Patch(cur, primary))| < 256 && !VendorConflict(cur, primary)
  {
    hide Lookup, Apply, Patch, Encode, Off, WellFormedPatch, IsNonInheritance, VendorConflict;
    var patch := Patch(cur, primary);
    AtEnd(patch, k);
    if k < |patch| {
      var key := LostShows(cur, primary, k);
    } else {
      assert patch[..k] == patch;
      RoundTripUnique(cur, primary);
    }
  }

  /** For instance a new vendor element of 254 bytes, 256 with its header: nothing is sent. */
  lemma DifferenceLost()
    ensures var primary: seq<Element> := [Element(0, [97])];
            var cur: seq<Element> := [Element(0, [97]), Element(VENDOR_SPECIFIC, seq(254, i => 0))];
            && UniqueKeys(cur) && GoneFits(GoneIds(primary, cur), GoneExts(primary, cur))
            && CutAt(Patch(cur, primary), 0)
            && Lookup(primary, Id(VENDOR_SPECIFIC)) == None && Lookup(cur, Id(VENDOR_SPECIFIC)).Some?
  {
    var ssid: Element, vendor: Element := Element(0, [97]), Element(VENDOR_SPECIFIC, seq(254, i => 0));
    var primary, cur := [ssid], [ssid, vendor];
    assert primary[1..] == [] && cur[1..] == [vendor] && [vendor][1..] == [];
    assert Lookup(cur, Id(0)) == Some([97]);
    assert GoneIds(primary, cur) == [] && GoneExts(primary, cur) == [];
    assert Lookup(primary, Id(0)) == Some([97]) && Lookup(primary, Id(VENDOR_SPECIFIC)) == None;
    assert !Differs(ssid, primary) && Differs(vendor, primary);
    ChangedCons(vendor, [], primary);
    ChangedCons(ssid, [vendor], primary);
    ChangedNothing(primary);
    assert [ssid] + [vendor] == cur && [vendor] + [] == [vendor];
    assert Patch(cur, primary) == [vendor];
    EncodeOne(vendor);
    OffEnds([vendor]);
  }

  lemma {:induction false} WithoutSubset(es: seq<Element>, key: Key)
    ensures forall e :: e in Without(es, key) ==> e in es && !Matches(e, key)
    ensures UniqueKeys(es) ==> UniqueKeys(Without(es, key))
  {
    if es != [] {
      WithoutSubset(es[1..], key);
      if UniqueKeys(es) {
        assert UniqueKeys(es[1..]);
        assert forall e :: e in Without(es[1..], key) ==> KeyOf(e) != KeyOf(es[0]);
        assert UniqueKeys([es[0]] + Without(es[1..], key));
      }
    }
  }

  lemma {:induction false} DropSubset(es: seq<Element>, listed: seq<u8>, ext: bool)
    ensures forall e :: e in Drop(es, listed, ext) ==> e in es
    ensures UniqueKeys(es) ==> UniqueKeys(Drop(es, listed, ext))
    decreases listed
  {
    if listed != [] {
      DropSubset(Without(es, ListedKey(listed[0], ext)), listed[1..], ext);
      WithoutSubset(es, ListedKey(listed[0], ext));
    }
  }

  lemma {:induction false} ApplyOneKeeps(es: seq<Element>, p: Element)
    requires ExtNonEmpty(es) && WellFormedPatch([p])
    ensures ExtNonEmpty(ApplyOne(es, p))
    ensures UniqueKeys(es) ==> UniqueKeys(ApplyOne(es, p))
  {
    assert p in [p];
    if IsNonInheritance(p) {
      DropSubset(es, ListedIds(p.data), false);
      DropSubset(Drop(es, ListedIds(p.data), false), ListedExts(p.data), true);
    } else {
      WithoutSubset(es, KeyOf(p));
      forall e | e in Without(es, KeyOf(p)) ensures KeyOf(e) != KeyOf(p) {
        assert !Matches(e, KeyOf(p));
      }
    }
  }

  /** Patching never leaves two elements with one key. */
  lemma {:induction false} ApplyUnique(es: seq<Element>, patch: seq<Element>)
    requires ExtNonEmpty(es) && WellFormedPatch(patch) && UniqueKeys(es)
    ensures ExtNonEmpty(Apply(es, patch)) && UniqueKeys(Apply(es, patch))
    decreases patch
  {
    if patch != [] {
      assert WellFormedPatch([patch[0]]);
      ApplyOneKeeps(es, patch[0]);
      ApplyUnique(ApplyOne(es, patch[0]), patch[1..]);
    }
  }

  // ----- the driver's in-place versions -----

  predicate ListIn(buf: array<u8>, len: nat, es: seq<Element>)
    reads buf
  {
    len <= buf.Length && buf[..len] == Encode(es)
  }

  predicate ElementIn(buf: array<u8>, i: nat, e: Element)
    reads buf
  {
    && i + 2 + |e.data| <= buf.Length && buf[i] == e.id && buf[i + 1] == |e.data|
    && buf[i + 2..i + 2 + |e.data|] == e.data
  }

  /** Reading element k of a list held in a buffer. */
  lemma ReadElement(buf: array<u8>, len: nat, es: seq<Element>, k: nat)
    requires ListIn(buf, len, es) && k < |es|
    ensures Off(es, k) + 2 + |es[k].data| == Off(es, k + 1) <= len
    ensures ElementIn(buf, Off(es, k), es[k]) && es[k] in es
  {
    hide Encode, Off;
    ElementAt(es, k);
    SubSlice(buf[..], 0, len, Off(es, k) + 2, Off(es, k + 1));
    assert buf[..len][Off(es, k)] == buf[Off(es, k)] && buf[..len][Off(es, k) + 1] == buf[Off(es, k) + 1];
  }

  lemma ChangedStep(cur: seq<Element>, k: nat, primary: seq<Element>)
    requires k < |cur|
    ensures Encode(Changed(cur[k..], primary)) ==
              (if Differs(cur[k], primary) then Wire(cur[k]) else []) + Encode(Changed(cur[k + 1..], primary))
  {
    assert cur[k..][1..] == cur[k + 1..];
    EncodeConcat([cur[k]], Changed(cur[k + 1..], primary));
    EncodeOne(cur[k]);
  }

  lemma ChangedEnds(cur: seq<Element>, primary: seq<Element>)
    ensures cur[0..] == cur
    ensures Encode(Changed(cur[|cur|..], primary)) == []
  {
  }

  /** First loop of build_inherited_ies: append the elements that differ. */
  method AppendChanged(cur: array<u8>, curLen: nat, primary: array<u8>, primaryLen: nat, sta: array<u8>,
                       ghost cs: seq<Element>, ghost ps: seq<Element>) returns (staLen: nat)
    requires sta != cur && sta != primary
    requires ListIn(cur, curLen, cs) && ListIn(primary, primaryLen, ps)
    requires ExtNonEmpty(cs) && ExtNonEmpty(ps)
    requires |Encode(Changed(cs, ps))| <= sta.Length
    modifies sta
    ensures staLen <= sta.Length && sta[..staLen] == Encode(Changed(cs, ps))
  {
    hide Encode, Changed, Differs, Lookup, Off, Wire;
    staLen := 0;
    var i := 0;
    ghost var k := 0;
    ghost var all := Encode(Changed(cs, ps));
    OffEnds(cs);
    ChangedEnds(cs, ps);
    while i < curLen
      invariant k <= |cs| && i == Off(cs, k) <= curLen
      invariant ListIn(cur, curLen, cs) && ListIn(primary, primaryLen, ps)
      invariant staLen <= |all| && sta[..staLen] + Encode(Changed(cs[k..], ps)) == all
    {
      AtEnd(cs, k);
      ReadElement(cur, curLen, cs, k);
      ChangedStep(cs, k, ps);
      ghost var e, done, rest := cs[k], sta[..staLen], Encode(Changed(cs[k + 1..], ps));
      var length := cur[i + 1];
      var differs := DiffersFromPrimary(cur, i, primary, primaryLen, e, ps);
      if differs {
        Assoc(done, Wire(e), rest);
        WireLength(e);
        staLen := SetIe(sta, staLen, cur[i], cur, i + 2, length);
        assert sta[..staLen] == done + Wire(e);
      }
      i := i + length + 2;
      k := k + 1;
    }
    AtEnd(cs, k);
  }

  lemma WireLength(e: Element)
    ensures |Wire(e)| == 2 + |e.data|
  {
  }

  /** The test in that loop: no such element in the primary list, or another one and not a vendor element. */
  method DiffersFromPrimary(cur: array<u8>, i: nat, primary: array<u8>, primaryLen: nat,
                            ghost e: Element, ghost ps: seq<Element>) returns (differs: bool)
    requires ElementIn(cur, i, e) && (e.id == EID_EXTENSION ==> |e.data| > 0)
    requires ListIn(primary, primaryLen, ps) && ExtNonEmpty(ps)
    ensures differs == Differs(e, ps)
  {
    hide Encode, Differs, Lookup, Seen, Behind, ExtNonEmpty, First, Off;
    var key := if cur[i] == EID_EXTENSION then Ext(cur[i + 2]) else Id(cur[i]);
    assert key == KeyOf(e);
    var p, len := GetIe(primary, 0, primaryLen, key, ps);
    DiffersFirst(e, ps);
    if p == -1 {
      return true;
    }
    ReadElement(primary, primaryLen, ps, First(ps, key));
    var length: int := cur[i + 1];
    differs := length != len || cur[i + 2..i + 2 + length] != primary[p + 2..p + 2 + len];
    differs := differs && cur[i] != VENDOR_SPECIFIC;
  }

  lemma DiffersFirst(e: Element, primary: seq<Element>)
    ensures Differs(e, primary) ==
              var k := First(primary, KeyOf(e));
              k == |primary| || (e.data != primary[k].data && e.id != VENDOR_SPECIFIC)
  {
    LookupFirst(primary, KeyOf(e));
  }

  lemma GoneUnfold(primary: seq<Element>, cur: seq<Element>)
    requires primary != [] && ExtNonEmpty(primary)
    ensures var e := primary[0];
            if First(cur, KeyOf(e)) == |cur| then
              && GoneIds(primary, cur) == GoneId(e) + GoneIds(primary[1..], cur)
              && GoneExts(primary, cur) == GoneExt(e) + GoneExts(primary[1..], cur)
            else
              && GoneIds(primary, cur) == GoneIds(primary[1..], cur)
              && GoneExts(primary, cur) == GoneExts(primary[1..], cur)
  {
    hide Lookup, First, KeyOf, GoneId, GoneExt;
    LookupFirst(cur, KeyOf(primary[0]));
  }

  lemma GoneStep(primary: seq<Element>, k: nat, cur: seq<Element>)
    requires k < |primary| && ExtNonEmpty(primary)
    ensures var e := primary[k];
            if First(cur, KeyOf(e)) == |cur| then
              && GoneIds(primary[k..], cur) == GoneId(e) + GoneIds(primary[k + 1..], cur)
              && GoneExts(primary[k..], cur) == GoneExt(e) + GoneExts(primary[k + 1..], cur)
            else
              && GoneIds(primary[k..], cur) == GoneIds(primary[k + 1..], cur)
              && GoneExts(primary[k..], cur) == GoneExts(primary[k + 1..], cur)
  {
    hide GoneIds, GoneExts, First, GoneId, GoneExt, KeyOf;
    GoneUnfold(primary[k..], cur);
    assert primary[k..][1..] == primary[k + 1..];
  }

  lemma GoneEnds(primary: seq<Element>, cur: seq<Element>)
    requires ExtNonEmpty(primary)
    ensures primary[0..] == primary
    ensures GoneIds(primary[|primary|..], cur) == [] && GoneExts(primary[|primary|..], cur) == []
  {
  }

  /** The lookup in that loop: cur has no such element. */
  method MissingFromCur(cur: array<u8>, curLen: nat, primary: array<u8>, i: nat,
                        ghost cs: seq<Element>, ghost e: Element)
    returns (missing: bool)
    requires ListIn(cur, curLen, cs) && ExtNonEmpty(cs)
    requires ElementIn(primary, i, e) && (e.id == EID_EXTENSION ==> |e.data| > 0)
    ensures missing <==> First(cs, KeyOf(e)) == |cs|
  {
    hide Encode, First;
    var key := if primary[i] == EID_EXTENSION then Ext(primary[i + 2]) else Id(primary[i]);
    assert key == KeyOf(e);
    var p, len := GetIe(cur, 0, curLen, key, cs);
    missing := p == -1;
  }

  /** Second loop of build_inherited_ies: collect the IDs of the elements only the primary list has. */
  method CollectGone(cur: array<u8>, curLen: nat, primary: array<u8>, primaryLen: nat,
                     ghost cs: seq<Element>, ghost ps: seq<Element>)
    returns (nih: array<u8>, nihLen: nat, nihExt: array<u8>, nihExtLen: nat)
    requires ListIn(cur, curLen, cs) && ListIn(primary, primaryLen, ps)
    requires ExtNonEmpty(cs) && ExtNonEmpty(ps)
    requires GoneFits(GoneIds(ps, cs), GoneExts(ps, cs))
    ensures fresh(nih) && fresh(nihExt) && nih != nihExt && nih.Length == nihExt.Length == 256
    ensures nihLen == 2 + |GoneIds(ps, cs)| && nihExtLen == |GoneExts(ps, cs)|
    ensures nih[0] == EXT_NON_INHERITANCE && nih[2..nihLen] == GoneIds(ps, cs)
    ensures nihExt[..nihExtLen] == GoneExts(ps, cs)
  {
    hide Encode, GoneIds, GoneExts, GoneId, Lookup, First, KeyOf, Off;
    nih, nihLen, nihExt, nihExtLen := new u8[256], 2, new u8[256], 0;
    nih[0] := EXT_NON_INHERITANCE;
    var i := 0;
    ghost var k := 0;
    ghost var ids: seq<u8>, exts: seq<u8> := [], [];
    OffEnds(ps);
    GoneEnds(ps, cs);
    while i < primaryLen
      invariant k <= |ps| && i == Off(ps, k) <= primaryLen
      invariant ListIn(cur, curLen, cs) && ListIn(primary, primaryLen, ps)
      invariant nihLen == 2 + |ids| && nihExtLen == |exts| && nih[0] == EXT_NON_INHERITANCE
      invariant ids + GoneIds(ps[k..], cs) == GoneIds(ps, cs)
      invariant exts + GoneExts(ps[k..], cs) == GoneExts(ps, cs)
      invariant nih[2..nihLen] == ids
      invariant nihExt[..nihExtLen] == exts
    {
      AtEnd(ps, k);
      ReadElement(primary, primaryLen, ps, k);
      GoneStep(ps, k, cs);
      ghost var e := ps[k];
      var missing := MissingFromCur(cur, curLen, primary, i, cs, e);
      if missing {
        nihLen, nihExtLen := NoteGone(primary, i, nih, nihLen, nihExt, nihExtLen, e, ids, exts);
        Assoc(ids, GoneId(e), GoneIds(ps[k + 1..], cs));
        Assoc(exts, GoneExt(e), GoneExts(ps[k + 1..], cs));
        ids, exts := ids + GoneId(e), exts + GoneExt(e);
      }
      i := i + primary[i + 1] + 2;
      k := k + 1;
    }
    AtEnd(ps, k);
  }

  method NoteGone(primary: array<u8>, i: nat, nih: array<u8>, nihLen: nat, nihExt: array<u8>, nihExtLen: nat,
                  ghost e: Element, ghost ids: seq<u8>, ghost exts: seq<u8>)
    returns (newNihLen: nat, newNihExtLen: nat)
    requires ElementIn(primary, i, e) && (e.id == EID_EXTENSION ==> |e.data| > 0)
    requires nih != nihExt && nih != primary && nihExt != primary
    requires 2 <= nihLen < nih.Length && nihExtLen < nihExt.Length
    requires nih[2..nihLen] == ids && nihExt[..nihExtLen] == exts
    modifies nih, nihExt
    ensures nih[0] == old(nih[0])
    ensures newNihLen == nihLen + |GoneId(e)| && nih[2..newNihLen] == ids + GoneId(e)
    ensures newNihExtLen == nihExtLen + |GoneExt(e)| && nihExt[..newNihExtLen] == exts + GoneExt(e)
  {
    newNihLen, newNihExtLen := nihLen, nihExtLen;
    if primary[i] == EID_EXTENSION {
      nihExt[nihExtLen] := primary[i + 2];
      newNihExtLen := nihExtLen + 1;
    } else {
      nih[nihLen] := primary[i];
      newNihLen := nihLen + 1;
    }
  }

  lemma Assoc<T>(a: seq<T>, b: seq<T>, c: seq<T>)
    ensures (a + b) + c == a + (b + c)
  {
  }

  /** Last part of build_inherited_ies: the Non-Inheritance element, if it would name anything. */
  method AppendNonInheritance(sta: array<u8>, staLen: nat, nih: array<u8>, nihIdsEnd: nat,
                              nihExt: array<u8>, nihExtLen: nat, ghost ids: seq<u8>, ghost exts: seq<u8>)
    returns (newLen: nat)
    requires sta != nih && sta != nihExt && nih != nihExt && nih.Length == nihExt.Length == 256
    requires GoneFits(ids, exts)
    requires nihIdsEnd == 2 + |ids| && nih[0] == EXT_NON_INHERITANCE && nih[2..nihIdsEnd] == ids
    requires nihExtLen == |exts| && nihExt[..nihExtLen] == exts
    requires staLen <= sta.Length && (|ids| + |exts| > 0 ==> staLen + 5 + |ids| + |exts| <= sta.Length)
    modifies sta, nih
    ensures newLen <= sta.Length
    ensures sta[..newLen] == old(sta[..staLen]) + if |ids| + |exts| > 0 then Wire(NonInheritance(ids, exts)) else []
  {
    hide Wire;
    newLen := staLen;
    var nihLen := nihIdsEnd;
    nih[1] := nihLen - 2;
    nih[nihLen] := nihExtLen;
    nihLen := nihLen + 1;
    ghost var head := nih[..nihLen];
    assert head == [EXT_NON_INHERITANCE, |ids|] + ids + [|exts|];
    for i := 0 to nihExtLen
      invariant nihLen == |head| + i && nih[..nihLen] == head + exts[..i]
      invariant sta[..] == old(sta[..]) && nihExt[..nihExtLen] == exts
    {
      nih[nihLen] := nihExt[i];
      nihLen := nihLen + 1;
    }
    if nihLen > 3 {
      assert exts[..nihExtLen] == exts;
      newLen := SetIe(sta, staLen, EID_EXTENSION, nih, 0, nihLen);
    }
  }

  /** build_inherited_ies: the difference between cur and primary, written to sta; its length is cut to a byte. */
  method BuildInheritedIes(cur: array<u8>, curLen: nat, primary: array<u8>, primaryLen: nat, sta: array<u8>,
                           ghost cs: seq<Element>, ghost ps: seq<Element>) returns (staLen: u8)
    requires sta != cur && sta != primary
    requires ListIn(cur, curLen, cs) && ListIn(primary, primaryLen, ps)
    requires ExtNonEmpty(cs) && ExtNonEmpty(ps)
    requires GoneFits(GoneIds(ps, cs), GoneExts(ps, cs)) && |Encode(Patch(cs, ps))| <= sta.Length
    modifies sta
    ensures var n := |Encode(Patch(cs, ps))|;
            n <= sta.Length && sta[..n] == Encode(Patch(cs, ps)) && staLen == n % 256
  {
    hide Encode, Patch, Changed, GoneIds, GoneExts, NonInheritance;
    PatchWire(cs, ps);
    var len := AppendChanged(cur, curLen, primary, primaryLen, sta, cs, ps);
    var nih, nihLen, nihExt, nihExtLen := CollectGone(cur, curLen, primary, primaryLen, cs, ps);
    len := AppendNonInheritance(sta, len, nih, nihLen, nihExt, nihExtLen, GoneIds(ps, cs), GoneExts(ps, cs));
    staLen := len % 256;
  }

  lemma PatchWire(cur: seq<Element>, primary: seq<Element>)
    requires ExtNonEmpty(primary)
    requires GoneFits(GoneIds(primary, cur), GoneExts(primary, cur))
    ensures var ids, exts := GoneIds(primary, cur), GoneExts(primary, cur);
            && Encode(Patch(cur, primary)) ==
                 Encode(Changed(cur, primary)) + (if |ids| + |exts| > 0 then Wire(NonInheritance(ids, exts)) else [])
            && |Wire(NonInheritance(ids, exts))| == 5 + |ids| + |exts|
  {
    var ids, exts := GoneIds(primary, cur), GoneExts(primary, cur);
    if |ids| + |exts| > 0 {
      EncodeConcat(Changed(cur, primary), [NonInheritance(ids, exts)]);
      EncodeOne(NonInheritance(ids, exts));
    } else {
      assert Patch(cur, primary) == Changed(cur, primary);
    }
  }

  lemma DropStep(es: seq<Element>, listed: seq<u8>, j: nat, ext: bool)
    requires j < |listed|
    ensures Drop(es, listed[j..], ext) == Drop(Without(es, ListedKey(listed[j], ext)), listed[j + 1..], ext)
  {
    assert listed[j..][1..] == listed[j + 1..];
  }

  lemma DropEnds(es: seq<Element>, listed: seq<u8>, ext: bool)
    ensures listed[0..] == listed && Drop(es, listed[|listed|..], ext) == es
  {
  }

  /** The two inner loops of rtw_update_ies_with_inheritance: remove what inh[from..from + n] lists. */
  method DropListed(cur: array<u8>, curLen: nat, inh: array<u8>, from: nat, n: nat, ext: bool, ghost es: seq<Element>)
    returns (newLen: nat)
    requires cur != inh && ListIn(cur, curLen, es) && ExtNonEmpty(es)
    requires from + n <= inh.Length
    modifies cur
    ensures newLen <= curLen && ListIn(cur, newLen, Drop(es, inh[from..from + n], ext))
  {
    hide Encode, Drop, Without;
    newLen := curLen;
    ghost var now, listed := es, inh[from..from + n];
    DropEnds(es, listed, ext);
    for j := 0 to n
      invariant newLen <= curLen && ListIn(cur, newLen, now) && ExtNonEmpty(now)
      invariant Drop(now, listed[j..], ext) == Drop(es, listed, ext)
      invariant inh[from..from + n] == listed
    {
      DropStep(now, listed, j, ext);
      var key := if ext then Ext(inh[from + j]) else Id(inh[from + j]);
      WithoutSubset(now, key);
      newLen := RemoveIe(cur, newLen, key, now);
      now := Without(now, key);
    }
    DropEnds(now, listed, ext);
  }

  lemma ApplyStep(es: seq<Element>, patch: seq<Element>, k: nat)
    requires WellFormedPatch(patch) && k < |patch|
    ensures WellFormedPatch([patch[k]])
    ensures Apply(es, patch[k..]) == Apply(ApplyOne(es, patch[k]), patch[k + 1..])
    ensures IsNonInheritance(patch[k]) ==> WellFormedNonInheritance(patch[k].data)
  {
    assert patch[k] in patch;
    assert patch[k..][1..] == patch[k + 1..];
  }

  lemma ApplyEnds(es: seq<Element>, patch: seq<Element>)
    requires WellFormedPatch(patch)
    ensures patch[0..] == patch && Apply(es, patch[|patch|..]) == es
  {
  }

  lemma AppendedElement(es: seq<Element>, p: Element)
    ensures Encode(Without(es, KeyOf(p)) + [p]) == Encode(Without(es, KeyOf(p))) + Wire(p)
  {
    EncodeConcat(Without(es, KeyOf(p)), [p]);
    EncodeOne(p);
  }

  /** The branch for a Non-Inheritance element: walk its two lists. */
  method ApplyNonInheritance(cur: array<u8>, curLen: nat, inh: array<u8>, i: nat,
                             ghost es: seq<Element>, ghost p: Element) returns (newLen: nat)
    requires cur != inh && ListIn(cur, curLen, es) && ExtNonEmpty(es)
    requires ElementIn(inh, i, p) && WellFormedNonInheritance(p.data)
    modifies cur
    ensures newLen <= curLen
    ensures ListIn(cur, newLen, Drop(Drop(es, ListedIds(p.data), false), ListedExts(p.data), true))
  {
    hide Encode, Drop;
    ghost var data := p.data;
    NonInheritanceIn(inh, i, p);
    var n: nat := inh[i + 3];
    var m: nat := inh[i + 4 + n];
    DropSubset(es, ListedIds(data), false);
    newLen := DropListed(cur, curLen, inh, i + 4, n, false, es);
    newLen := DropListed(cur, newLen, inh, i + 5 + n, m, true, Drop(es, ListedIds(data), false));
  }

  /** Where a Non-Inheritance element's two lists are in the buffer. */
  lemma NonInheritanceIn(inh: array<u8>, i: nat, p: Element)
    requires ElementIn(inh, i, p) && WellFormedNonInheritance(p.data)
    ensures var n, m := p.data[1], p.data[2 + p.data[1]];
            && inh[i + 3] == n && inh[i + 4..i + 4 + n] == ListedIds(p.data)
            && inh[i + 4 + n] == m && inh[i + 5 + n..i + 5 + n + m] == ListedExts(p.data)
  {
    var n: int := p.data[1];
    assert inh[i + 3] == p.data[1];
    var m: int := p.data[2 + n];
    assert inh[i + 4 + n] == p.data[2 + n];
    SubSlice(inh[..], i + 2, i + 2 + |p.data|, 2, 2 + n);
    SubSlice(inh[..], i + 2, i + 2 + |p.data|, 3 + n, 3 + n + m);
  }

  /** One round of rtw_update_ies_with_inheritance: apply the element p at inh[i..]. */
  method ApplyElement(cur: array<u8>, curLen: nat, inh: array<u8>, i: nat, ghost es: seq<Element>, ghost p: Element)
    returns (newLen: nat)
    requires cur != inh && ListIn(cur, curLen, es) && ExtNonEmpty(es)
    requires WellFormedPatch([p]) && ElementIn(inh, i, p)
    requires curLen + 2 + |p.data| <= cur.Length
    modifies cur
    ensures newLen <= curLen + 2 + |p.data| && ListIn(cur, newLen, ApplyOne(es, p))
  {
    hide Encode, Drop, Without, Wire;
    assert p in [p];
    if inh[i] == EID_EXTENSION && inh[i + 2] == EXT_NON_INHERITANCE {
      newLen := ApplyNonInheritance(cur, curLen, inh, i, es, p);
    } else {
      var key := if inh[i] == EID_EXTENSION then Ext(inh[i + 2]) else Id(inh[i]);
      assert key == KeyOf(p);
      AppendedElement(es, p);
      newLen := RemoveIe(cur, curLen, key, es);
      newLen := SetIe(cur, newLen, inh[i], inh, i + 2, inh[i + 1]);
    }
  }

  /** rtw_update_ies_with_inheritance: patch the list in cur with the difference in inh. */
  method UpdateIesWithInheritance(cur: array<u8>, curLen: nat, inh: array<u8>, inhLen: u8,
                                  ghost es: seq<Element>, ghost patch: seq<Element>) returns (newLen: nat)
    requires cur != inh && ListIn(cur, curLen, es) && ListIn(inh, inhLen, patch)
    requires ExtNonEmpty(es) && WellFormedPatch(patch)
    requires curLen + inhLen <= cur.Length
    modifies cur
    ensures ListIn(cur, newLen, Apply(es, patch))
  {
    hide Encode, Apply, ApplyOne;
    newLen := curLen;
    var i: nat := 0;
    ghost var k, now := 0, es;
    OffEnds(patch);
    ApplyEnds(es, patch);
    while i < inhLen
      invariant k <= |patch| && i == Off(patch, k) <= inhLen
      invariant ListIn(cur, newLen, now) && ListIn(inh, inhLen, patch) && ExtNonEmpty(now)
      invariant newLen + (inhLen - i) <= cur.Length
      invariant Apply(now, patch[k..]) == Apply(es, patch)
    {
      AtEnd(patch, k);
      ReadElement(inh, inhLen, patch, k);
      ApplyStep(now, patch, k);
      ApplyOneKeeps(now, patch[k]);
      newLen := ApplyElement(cur, newLen, inh, i, now, patch[k]);
      now := ApplyOne(now, patch[k]);
      i := i + inh[i + 1] + 2;
      k := k + 1;
    }
    AtEnd(patch, k);
    ApplyEnds(now, patch);
  }

  /**
   Both sides: the difference is built, and the receiver patches its copy of the primary list with as many
   bytes of it as the length byte says.
   */
  method BuildAndUpdate(cur: array<u8>, curLen: nat, primary: array<u8>, primaryLen: nat, sta: array<u8>,
                        copy: array<u8>, copyLen: nat, ghost cs: seq<Element>, ghost ps: seq<Element>, ghost k: nat)
    returns (newLen: nat)
    requires sta != cur && sta != primary && copy != sta
    requires ListIn(cur, curLen, cs) && ListIn(primary, primaryLen, ps) && ListIn(copy, copyLen, ps)
    requires ExtNonEmpty(cs) && ExtNonEmpty(ps) && forall e :: e in cs ==> !IsNonInheritance(e)
    requires GoneFits(GoneIds(ps, cs), GoneExts(ps, cs)) && |Encode(Patch(cs, ps))| <= sta.Length
    requires CutAt(Patch(cs, ps), k) && copyLen + 255 <= copy.Length
    modifies sta, copy
    ensures WellFormedPatch(Patch(cs, ps)[..k]) && ListIn(copy, newLen, Apply(ps, Patch(cs, ps)[..k]))
  {
    hide Encode, Patch, Apply, GoneIds, GoneExts, IsNonInheritance;
    ghost var patch := Patch(cs, ps);
    PatchIsWellFormed(cs, ps);
    var staLen := BuildInheritedIes(cur, curLen, primary, primaryLen, sta, cs, ps);
    SentPrefix(sta[..], patch, k);
    newLen := UpdateIesWithInheritance(copy, copyLen, sta, staLen, ps, patch[..k]);
  }

  lemma SentPrefix(buf: seq<u8>, patch: seq<Element>, k: nat)
    requires CutAt(patch, k) && |Encode(patch)| <= |buf| && buf[..|Encode(patch)|] == Encode(patch)
    requires WellFormedPatch(patch)
    ensures Off(patch, k) <= |buf| && buf[..Off(patch, k)] == Encode(patch[..k]) && WellFormedPatch(patch[..k])
  {
    hide Encode;
    AtEnd(patch, k);
    EncodeConcat(patch[..k], patch[k..]);
    assert patch == patch[..k] + patch[k..];
    assert buf[..Off(patch, k)] == buf[..|Encode(patch)|][..Off(patch, k)];
    assert forall p :: p in patch[..k] ==> p in patch;
  }
}
