/**
 The channel-switch countdown in the beacon: rtw_csa.c builds a Channel Switch Announcement and an
 Extended Channel Switch Announcement element (sections 9.4.2.18 and 9.4.2.52 of IEEE Std
 802.11-2020), and every beacon update writes the next count into them or, at zero, removes them.
 */
module ChannelSwitch {
  import opened Common
  import opened Elements
  import opened Beacon

  const EID_CHANNEL_SWITCH: u8 := 37
  const EID_ECSA: u8 := 60
  const CSA_IE_LEN := 3
  const ECSA_IE_LEN := 4

  datatype EcsaState = StNone | SwStart | SwDone

  /** The beacon elements with the ECSA state and parameters that drive them. */
  datatype Csa = Csa(es: seq<Element>, state: EcsaState, count: u8, mode: u8, chan: u8, opClass: u8, enEcsa: bool)

  function CsaElement(c: Csa): Element {
    Element(EID_CHANNEL_SWITCH, [c.mode, c.chan, c.count])
  }

  function EcsaElement(c: Csa): Element {
    Element(EID_ECSA, [c.mode, c.opClass, c.chan, c.count])
  }

  /** Both builders, the second one only with ECSA enabled. */
  function Build(c: Csa): Csa {
    var es := Add(c.es, CsaElement(c));
    c.(es := if c.enEcsa then Add(es, EcsaElement(c)) else es)
  }

  /** The first element with that ID has the expected length. */
  predicate HasCountdown(es: seq<Element>, id: u8, len: nat) {
    var k := First(es, Id(id));
    k < |es| && |es[k].data| == len
  }

  function SetLast(e: Element, value: u8): Element
    requires e.data != []
  {
    Element(e.id, e.data[|e.data| - 1 := value])
  }

  /** _update_csa_ie and _update_ecsa_ie: in both elements the count is the last byte. */
  function UpdateElement(es: seq<Element>, id: u8, len: nat, count: u8): seq<Element>
    requires len > 0
  {
    var k := First(es, Id(id));
    if !HasCountdown(es, id, len) then es
    else if count > 0 then es[..k] + [SetLast(es[k], count)] + es[k + 1..]
    else Remove(es, id)
  }

  /** update_csa_ie, with its return value. */
  function Update(c: Csa): (Csa, bool) {
    if c.state != SwStart then (c, false)
    else
      var csa := HasCountdown(c.es, EID_CHANNEL_SWITCH, CSA_IE_LEN);
      var es := UpdateElement(c.es, EID_CHANNEL_SWITCH, CSA_IE_LEN, c.count);
      var ecsa := c.enEcsa && HasCountdown(es, EID_ECSA, ECSA_IE_LEN);
      var es' := if c.enEcsa then UpdateElement(es, EID_ECSA, ECSA_IE_LEN, c.count) else es;
      (c.(es := es',
          state := if c.count == 0 && (csa || ecsa) then SwDone else SwStart,
          count := if c.count > 0 then c.count - 1 else 0),
       csa || ecsa)
  }

  /** k updates in a row. */
  function Updates(c: Csa, k: nat): Csa {
    if k == 0 then c else Update(Updates(c, k - 1)).0
  }

  // ----- the countdown -----

  /** A fresh start: neither element is there yet, and adding them takes effect. */
  predicate Starts(c: Csa) {
    && c.state == SwStart
    && Absent(c.es, EID_CHANNEL_SWITCH) && Absent(c.es, EID_ECSA)
    && AddTakes(c.es, CsaElement(c))
    && (c.enEcsa ==> AddTakes(Add(c.es, CsaElement(c)), EcsaElement(c)))
  }

  function Ins(es: seq<Element>, k: nat, e: Element): (r: seq<Element>)
    requires k <= |es|
    ensures |r| == |es| + 1
  {
    es[..k] + [e] + es[k..]
  }

  lemma InsSwap(es: seq<Element>, i: nat, j: nat, a: Element, b: Element)
    requires i <= j <= |es|
    ensures Ins(Ins(es, i, a), j + 1, b) == Ins(Ins(es, j, b), i, a)
  {
    var one, two := Ins(es, i, a), Ins(es, j, b);
    assert one[..j + 1] == es[..i] + [a] + es[i..j] && one[j + 1..] == es[j..];
    assert two[..i] == es[..i] && two[i..] == es[i..j] + [b] + es[j..];
  }

  lemma InsAbsent(es: seq<Element>, k: nat, e: Element, id: u8)
    requires k <= |es| && Absent(es, id) && e.id != id
    ensures Absent(Ins(es, k, e), id)
  {
  }

  /** An update of the element inserted at k changes only that element's count, or takes it out. */
  lemma UpdateInserted(es: seq<Element>, k: nat, e: Element, count: u8)
    requires k <= |es| && Absent(es, e.id) && e.data != []
    ensures HasCountdown(Ins(es, k, e), e.id, |e.data|)
    ensures UpdateElement(Ins(es, k, e), e.id, |e.data|, count) ==
              if count > 0 then Ins(es, k, SetLast(e, count)) else es
  {
    var placed := Ins(es, k, e);
    assert forall m :: 0 <= m < |es| ==> es[m] in es;
    FirstIs(placed, Id(e.id), k);
    assert placed[k] == e && placed[..k] == es[..k] && placed[k + 1..] == es[k..];
    assert es == es[..k] + es[k..];
  }

  lemma AddInserts(es: seq<Element>, e: Element)
    requires Absent(es, e.id) && AddTakes(es, e)
    ensures Add(es, e) == Ins(es, Stop(es, e.id), e)
  {
    var k := Stop(es, e.id);
    if k < |es| {
      assert es[k] in es;
    }
  }

  /** Where the two builders put their elements. */
  lemma BuildInserts(c: Csa)
    requires Starts(c)
    ensures var i, j := Stop(c.es, EID_CHANNEL_SWITCH), Stop(c.es, EID_ECSA);
            && i <= j
            && Build(c).es == if c.enEcsa then Ins(Ins(c.es, i, CsaElement(c)), j + 1, EcsaElement(c))
                              else Ins(c.es, i, CsaElement(c))
  {
    var i, j := Stop(c.es, EID_CHANNEL_SWITCH), Stop(c.es, EID_ECSA);
    hide Stop, Add, AddTakes, Ins, Absent;
    StopBehind(c.es, CsaElement(c), EID_ECSA);
    AddInserts(c.es, CsaElement(c));
    if c.enEcsa {
      InsAbsent(c.es, i, CsaElement(c), EID_ECSA);
      AddInserts(Ins(c.es, i, CsaElement(c)), EcsaElement(c));
    }
  }

  lemma StopBehind(es: seq<Element>, e: Element, id: u8)
    requires e.id < id
    ensures Stop(es, e.id) <= Stop(es, id)
    ensures Stop(Ins(es, Stop(es, e.id), e), id) == Stop(es, id) + 1
  {
    hide Stop;
    var i, j := Stop(es, e.id), Stop(es, id);
    StopIs(Ins(es, i, e), id, j + 1);
  }

  lemma CountIrrelevant(c: Csa, count: u8)
    requires Starts(c)
    ensures Starts(c.(count := count))
  {
    hide Encode, Stop, HasPivot, Size, Absent;
    if c.enEcsa {
      AbsentStop(c.es, EID_CHANNEL_SWITCH);
      var one, two := Add(c.es, CsaElement(c)), Add(c.es, CsaElement(c.(count := count)));
      SameShape(one, two, EID_ECSA);
    }
  }

  /** The same IDs and lengths in the same places. */
  predicate Alike(a: seq<Element>, b: seq<Element>) {
    |a| == |b| && forall k :: 0 <= k < |a| ==> a[k].id == b[k].id && |a[k].data| == |b[k].data|
  }

  lemma SameShape(a: seq<Element>, b: seq<Element>, id: u8)
    requires Alike(a, b)
    ensures Stop(a, id) == Stop(b, id) && (HasPivot(a, id) <==> HasPivot(b, id)) && Size(a) == Size(b)
  {
    hide Encode;
    StopIs(b, id, Stop(a, id));
    SameSize(a, b);
  }

  lemma {:induction false} SameSize(a: seq<Element>, b: seq<Element>)
    requires Alike(a, b)
    ensures |Encode(a)| == |Encode(b)|
  {
    if a != [] {
      SameSize(a[1..], b[1..]);
    }
  }

  /** One update of a running countdown: the element lists, count being what is written (or 0). */
  lemma UpdateLists(c: Csa, shown: u8)
    requires Starts(c)
    ensures var was := Build(c.(count := shown)).es;
            var es := UpdateElement(was, EID_CHANNEL_SWITCH, CSA_IE_LEN, c.count);
            && HasCountdown(was, EID_CHANNEL_SWITCH, CSA_IE_LEN)
            && (if c.enEcsa then UpdateElement(es, EID_ECSA, ECSA_IE_LEN, c.count) else es) ==
                 if c.count > 0 then Build(c).es else c.es
  {
    hide Stop, Add, UpdateElement, HasCountdown, Ins, Build, Absent, AddTakes;
    var was := c.(count := shown);
    CountIrrelevant(c, shown);
    BuildInserts(c);
    BuildInserts(was);
    assert SetLast(CsaElement(was), c.count) == CsaElement(c);
    assert SetLast(EcsaElement(was), c.count) == EcsaElement(c);
    var i, j := Stop(c.es, EID_CHANNEL_SWITCH), Stop(c.es, EID_ECSA);
    if c.enEcsa {
      var base := Ins(c.es, j, EcsaElement(was));
      InsAbsent(c.es, j, EcsaElement(was), EID_CHANNEL_SWITCH);
      InsSwap(c.es, i, j, CsaElement(was), EcsaElement(was));
      UpdateInserted(base, i, CsaElement(was), c.count);
      if c.count > 0 {
        InsSwap(c.es, i, j, CsaElement(c), EcsaElement(was));
        InsAbsent(c.es, i, CsaElement(c), EID_ECSA);
        UpdateInserted(Ins(c.es, i, CsaElement(c)), j + 1, EcsaElement(was), c.count);
      } else {
        UpdateInserted(c.es, j, EcsaElement(was), 0);
      }
    } else {
      UpdateInserted(c.es, i, CsaElement(was), c.count);
    }
  }

  /** A positive count is written into both elements; at zero they go and the switch is done. */
  lemma UpdateRunning(c: Csa, shown: u8)
    requires Starts(c)
    ensures Update(Build(c.(count := shown)).(count := c.count)) ==
              (if c.count > 0 then Build(c).(count := c.count - 1) else c.(state := SwDone), true)
  {
    hide Add, UpdateElement, HasCountdown, Absent, AddTakes;
    UpdateLists(c, shown);
  }

  /**
   The whole countdown from count N: update k shows N - k + 1 in both elements, update N + 1 leaves
   the elements as they were before the builders ran, and nothing happens after that.
   */
  lemma {:induction false} Countdown(c: Csa, k: nat)
    requires Starts(c)
    ensures var N: int := c.count;
            Updates(Build(c), k) ==
              if k == 0 then Build(c)
              else if k <= N then Build(c.(count := N - k + 1)).(count := N - k)
              else c.(count := 0, state := SwDone)
    ensures k > 0 ==> (Update(Updates(Build(c), k - 1)).1 <==> k <= c.count + 1)
  {
    hide Build, Update, Starts;
    var N: int := c.count;
    if k > 0 {
      Countdown(c, k - 1);
      if k <= N + 1 {
        var next := c.(count := N - k + 1);
        CountIrrelevant(c, N - k + 1);
        BuildParams(c);
        UpdateRunning(next, if k == 1 then c.count else N - k + 2);
      } else {
        UpdateDone(c.(count := 0, state := SwDone));
      }
    }
  }

  lemma BuildParams(c: Csa)
    ensures Build(c).(count := c.count) == Build(c)
  {
  }

  lemma UpdateDone(c: Csa)
    requires c.state == SwDone
    ensures Update(c) == (c, false)
  {
  }

  /** What a station reads while the countdown runs. */
  lemma CountdownShows(c: Csa, k: nat)
    requires Starts(c) && 1 <= k <= c.count
    ensures var es := Updates(Build(c), k).es;
            && Lookup(es, Id(37)) == Some([c.mode, c.chan, c.count - k + 1])
            && Lookup(es, Id(60)) == if c.enEcsa then Some([c.mode, c.opClass, c.chan, c.count - k + 1]) else None
    ensures forall id: u8 | id !in {37, 60} :: Lookup(Updates(Build(c), k).es, Id(id)) == Lookup(c.es, Id(id))
  {
    hide Add, Lookup, Update, Updates, Starts, AddTakes;
    Countdown(c, k);
    var now := c.(count := c.count - k + 1);
    CountIrrelevant(c, c.count - k + 1);
    var es := Add(c.es, CsaElement(now));
    StartsTakes(now);
    AddLookup(c.es, CsaElement(now), EID_CHANNEL_SWITCH);
    AddLookup(es, EcsaElement(now), EID_CHANNEL_SWITCH);
    forall id: u8 | id != EID_CHANNEL_SWITCH && (c.enEcsa ==> id != EID_ECSA)
      ensures Lookup(Build(now).es, Id(id)) == Lookup(c.es, Id(id))
    {
      AddLookup(c.es, CsaElement(now), id);
      AddLookup(es, EcsaElement(now), id);
    }
    NoEcsaYet(c);
  }

  lemma NoEcsaYet(c: Csa)
    requires Starts(c)
    ensures Lookup(c.es, Id(EID_ECSA)) == None
  {
    AbsentFirst(c.es, EID_ECSA);
    LookupFirst(c.es, Id(EID_ECSA));
  }

  lemma StartsTakes(c: Csa)
    requires Starts(c)
    ensures AddTakes(c.es, CsaElement(c)) && (c.enEcsa ==> AddTakes(Add(c.es, CsaElement(c)), EcsaElement(c)))
  {
  }

  /** There is an element to count down in. */
  predicate Counting(c: Csa) {
    || HasCountdown(c.es, EID_CHANNEL_SWITCH, CSA_IE_LEN)
    || (c.enEcsa && HasCountdown(c.es, EID_ECSA, ECSA_IE_LEN))
  }

  /** That is, what is found under ID 37 has three bytes, or with ECSA what is found under ID 60 has four. */
  lemma CountingMeans(c: Csa)
    ensures Counting(c) <==>
              || (Lookup(c.es, Id(37)).Some? && |Lookup(c.es, Id(37)).value| == 3)
              || (c.enEcsa && Lookup(c.es, Id(60)).Some? && |Lookup(c.es, Id(60)).value| == 4)
  {
    hide First, Lookup;
    LookupFirst(c.es, Id(37));
    LookupFirst(c.es, Id(60));
  }

  /** Without one, updates report failure and the switch stays started. */
  lemma {:induction false} CountdownStuck(c: Csa, k: nat)
    requires c.state == SwStart && !Counting(c)
    ensures Updates(c, k).es == c.es && Updates(c, k).state == SwStart && Updates(c, k).enEcsa == c.enEcsa
    ensures !Update(Updates(c, k)).1
  {
    if k > 0 {
      CountdownStuck(c, k - 1);
    }
  }

  lemma AlikeCountdown(a: seq<Element>, b: seq<Element>, id: u8, len: nat)
    requires Alike(a, b)
    ensures HasCountdown(a, id, len) <==> HasCountdown(b, id, len)
  {
    FirstIs(b, Id(id), First(a, Id(id)));
  }

  /** While the count is positive an update writes into elements and moves none. */
  lemma UpdateAlike(es: seq<Element>, id: u8, len: nat, count: u8)
    requires len > 0 && count > 0
    ensures Alike(UpdateElement(es, id, len, count), es)
  {
    hide First;
  }

  lemma StillCounting(c: Csa)
    requires c.state == SwStart && Counting(c) && c.count > 0
    ensures var next := Update(c).0; next.state == SwStart && Counting(next) && next.count == c.count - 1
  {
    hide UpdateElement, HasCountdown, Alike;
    var es := UpdateElement(c.es, EID_CHANNEL_SWITCH, CSA_IE_LEN, c.count);
    var es' := UpdateElement(es, EID_ECSA, ECSA_IE_LEN, c.count);
    UpdateAlike(c.es, EID_CHANNEL_SWITCH, CSA_IE_LEN, c.count);
    UpdateAlike(es, EID_ECSA, ECSA_IE_LEN, c.count);
    AlikeCountdown(es, c.es, EID_CHANNEL_SWITCH, CSA_IE_LEN);
    AlikeCountdown(es, c.es, EID_ECSA, ECSA_IE_LEN);
    AlikeCountdown(es', es, EID_CHANNEL_SWITCH, CSA_IE_LEN);
    AlikeCountdown(es', es, EID_ECSA, ECSA_IE_LEN);
  }

  lemma {:induction false} CountdownRuns(c: Csa, k: nat)
    requires c.state == SwStart && Counting(c) && k <= c.count
    ensures var now := Updates(c, k); now.state == SwStart && Counting(now) && now.count == c.count - k
  {
    hide Counting, Update;
    if k > 0 {
      CountdownRuns(c, k - 1);
      StillCounting(Updates(c, k - 1));
    }
  }

  lemma LastUpdate(c: Csa)
    requires c.state == SwStart && Counting(c) && c.count == 0
    ensures Update(c).0.state == SwDone
  {
    hide HasCountdown, First;
    NothingToUpdate(c.es, EID_CHANNEL_SWITCH, CSA_IE_LEN, 0);
  }

  lemma NothingToUpdate(es: seq<Element>, id: u8, len: nat, count: u8)
    requires len > 0
    ensures !HasCountdown(es, id, len) ==> UpdateElement(es, id, len, count) == es
  {
  }

  /**
   From any beacon, a switch that has been started ends exactly if there is an element to count down in:
   ID 37 is found with three bytes of data, or with ECSA ID 60 with four.
   */
  lemma CountdownEnds(c: Csa)
    requires c.state == SwStart
    ensures (exists k: nat :: Updates(c, k).state == SwDone) <==>
              || (Lookup(c.es, Id(37)).Some? && |Lookup(c.es, Id(37)).value| == 3)
              || (c.enEcsa && Lookup(c.es, Id(60)).Some? && |Lookup(c.es, Id(60)).value| == 4)
  {
    hide Counting, Update, Lookup;
    CountingMeans(c);
    if Counting(c) {
      CountdownRuns(c, c.count);
      LastUpdate(Updates(c, c.count));
      assert Updates(c, c.count + 1).state == SwDone;
    } else {
      forall k: nat ensures Updates(c, k).state == SwStart {
        CountdownStuck(c, k);
      }
    }
  }

  /** In a beacon with neither element: exactly if one of the builders' adds took effect. */
  lemma CountdownEndsExactly(c: Csa)
    requires c.state == SwStart && Absent(c.es, EID_CHANNEL_SWITCH) && Absent(c.es, EID_ECSA)
    ensures (exists k: nat :: Updates(Build(c), k).state == SwDone) <==>
              || AddTakes(c.es, CsaElement(c))
              || (c.enEcsa && AddTakes(Add(c.es, CsaElement(c)), EcsaElement(c)))
  {
    hide Updates, AddTakes, HasCountdown, Absent, Add, Lookup;
    CountdownEnds(Build(c));
    CountingMeans(Build(c));
    var es := Add(c.es, CsaElement(c));
    AddedCounts(c.es, CsaElement(c), EID_CHANNEL_SWITCH, CSA_IE_LEN);
    AddedCounts(es, EcsaElement(c), EID_CHANNEL_SWITCH, CSA_IE_LEN);
    AbsentAfter(c.es, CsaElement(c), EID_ECSA);
    AddedCounts(es, EcsaElement(c), EID_ECSA, ECSA_IE_LEN);
    NotCounting(c.es, EID_CHANNEL_SWITCH, CSA_IE_LEN);
    NotCounting(es, EID_ECSA, ECSA_IE_LEN);
  }

  lemma NotCounting(es: seq<Element>, id: u8, len: nat)
    requires Absent(es, id)
    ensures !HasCountdown(es, id, len)
  {
    AbsentFirst(es, id);
  }

  lemma AbsentAfter(es: seq<Element>, e: Element, id: u8)
    requires Absent(es, id) && e.id != id
    ensures Absent(Add(es, e), id)
  {
    hide Stop, AddTakes;
  }

  /** What an add does to the search for an element to count down in. */
  lemma AddedCounts(es: seq<Element>, e: Element, id: u8, len: nat)
    ensures id != e.id ==> (HasCountdown(Add(es, e), id, len) <==> HasCountdown(es, id, len))
    ensures id == e.id && |e.data| == len && AddTakes(es, e) ==> HasCountdown(Add(es, e), id, len)
    ensures !AddTakes(es, e) ==> Add(es, e) == es
  {
    hide First, Lookup, Stop;
    AddLookup(es, e, id);
    LookupFirst(es, Id(id));
    LookupFirst(Add(es, e), Id(id));
  }

  // ----- the driver's state -----

  class Adapter {
    const bss: BssNetwork
    var state: EcsaState
    var count: u8
    var mode: u8
    var chan: u8
    var opClass: u8
    var enEcsa: bool

    constructor (bss: BssNetwork, mode: u8, chan: u8, opClass: u8, count: u8, enEcsa: bool, ghost es: seq<Element>)
      requires bss.Holds(es)
      ensures this.bss == bss && Is(Csa(es, SwStart, count, mode, chan, opClass, enEcsa))
    {
      this.bss := bss;
      this.state, this.count := SwStart, count;
      this.mode, this.chan, this.opClass, this.enEcsa := mode, chan, opClass, enEcsa;
    }

    ghost predicate Is(c: Csa)
      reads this, bss, bss.IEs
    {
      && bss.Holds(c.es)
      && state == c.state && count == c.count
      && mode == c.mode && chan == c.chan && opClass == c.opClass && enEcsa == c.enEcsa
    }

    /** rtw_build_csa_ie */
    method BuildCsaIe(ghost c: Csa)
      requires Is(c)
      modifies bss`IELength, bss.IEs
      ensures Is(c.(es := Add(c.es, CsaElement(c))))
      ensures bss.IEs[..FIXED_IE_LENGTH] == old(bss.IEs[..FIXED_IE_LENGTH])
    {
      bss.AddBcnIe(EID_CHANNEL_SWITCH, [mode, chan, count], c.es);
    }

    /** rtw_build_ecsa_ie */
    method BuildEcsaIe(ghost c: Csa)
      requires Is(c)
      modifies bss`IELength, bss.IEs
      ensures Is(c.(es := Add(c.es, EcsaElement(c))))
      ensures bss.IEs[..FIXED_IE_LENGTH] == old(bss.IEs[..FIXED_IE_LENGTH])
    {
      bss.AddBcnIe(EID_ECSA, [mode, opClass, chan, count], c.es);
    }

    /** _update_csa_ie and _update_ecsa_ie, which differ in the element's ID and length only. */
    method UpdateElementIe(id: u8, len: nat, ghost c: Csa) returns (found: bool)
      requires Is(c) && len > 0
      modifies this`state, bss`IELength, bss.IEs
      ensures found == HasCountdown(c.es, id, len)
      ensures Is(c.(es := UpdateElement(c.es, id, len, c.count),
                    state := if found && c.count == 0 then SwDone else c.state))
      ensures bss.IEs[..FIXED_IE_LENGTH] == old(bss.IEs[..FIXED_IE_LENGTH])
    {
      hide Encode, Off, First, Seen, Behind;
      var p, ielen := GetIe(bss.IEs, FIXED_IE_LENGTH, bss.IELength - FIXED_IE_LENGTH, Id(id), c.es);
      found := p != -1 && ielen == len;
      if found {
        if count > 0 {
          bss.SetDataByte(p, len - 1, count, c.es, First(c.es, Id(id)));
        } else {
          bss.RemoveBcnIe(id, c.es);
          state := SwDone;
        }
      }
    }

    /** update_csa_ie */
    method UpdateCsaIe(ghost c: Csa) returns (update: bool)
      requires Is(c)
      modifies this`state, this`count, bss`IELength, bss.IEs
      ensures Is(Update(c).0) && update == Update(c).1
      ensures bss.IEs[..FIXED_IE_LENGTH] == old(bss.IEs[..FIXED_IE_LENGTH])
    {
      hide UpdateElement, HasCountdown;
      if state != SwStart {
        return false;
      }
      update := UpdateElementIe(EID_CHANNEL_SWITCH, CSA_IE_LEN, c);
      if enEcsa {
        ghost var now := c.(es := UpdateElement(c.es, EID_CHANNEL_SWITCH, CSA_IE_LEN, c.count), state := state);
        var found := UpdateElementIe(EID_ECSA, ECSA_IE_LEN, now);
        update := update || found;
      }
      if count > 0 {
        count := count - 1;
      }
    }
  }
}
