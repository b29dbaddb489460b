/**
 Station capability counters of an access point in rtw_ap.c and the ERP element of its beacon: joins,
 re-joins, leaves and coexistence reports keep one counter per station flag, and the Non-ERP-Present
 and Use-Protection bits follow the counter of stations without ERP.
 */
module Protection {
  import opened Common
  import opened Elements
  import opened Beacon

  const EID_ERPINFO: u8 := 42

  /** The flags kept per station, each with its counter. */
  datatype Kind = NoShortPreamble | NonErp | NoShortSlot | NoHt | NoGreenfield | Ht20Mhz | Intolerant40

  /** What a station says of itself when it associates. */
  datatype Caps = Caps(shortPreamble: bool, nonErp: bool, shortSlot: bool, ht: bool,
                       greenfield: bool, width40: bool, intolerant40: bool)

  /** Does a flag hold after a join, given whether it did before? The three HT flags are never taken back by a join. */
  predicate HasAfterJoin(k: Kind, had: bool, caps: Caps, htOn: bool) {
    match k
    case NoShortPreamble => !caps.shortPreamble
    case NonErp => caps.nonErp
    case NoShortSlot => !caps.shortSlot
    case NoHt => if htOn then !caps.ht else had
    case NoGreenfield => had || (htOn && caps.ht && !caps.greenfield)
    case Ht20Mhz => had || (htOn && caps.ht && !caps.width40)
    case Intolerant40 => had || (htOn && caps.ht && caps.intolerant40)
  }

  function Delta(had: bool, has: bool): int {
    (if has then 1 else 0) - (if had then 1 else 0)
  }

  /** When the ERP element is written: the first station without ERP has come or the last has gone. */
  predicate Crossed(had: bool, has: bool, count: int) {
    (!had && has && count == 1) || (had && !has && count == 0)
  }

  // ----- the ERP element -----

  /** The element's byte with both protection bits and the Barker bit set as given. */
  function ErpByte(b: u8, protect: bool, barker: bool): u8 {
    b / 8 * 8 + (if barker then 4 else 0) + (if protect then 3 else 0)
  }

  predicate NonErpPresent(b: u8) {
    b % 2 == 1
  }

  predicate UseProtection(b: u8) {
    b / 2 % 2 == 1
  }

  predicate BarkerMode(b: u8) {
    b / 4 % 2 == 1
  }

  lemma ErpBits(b: u8, protect: bool, barker: bool)
    ensures var r := ErpByte(b, protect, barker);
            && (NonErpPresent(r) <==> protect) && (UseProtection(r) <==> protect) && (BarkerMode(r) <==> barker)
            && r / 8 == b / 8
  {
    LowBits(b / 8, if barker then 4 else 0, if protect then 3 else 0);
  }

  lemma LowBits(x: int, c: int, p: int)
    requires (c == 0 || c == 4) && (p == 0 || p == 3)
    ensures var r := 8 * x + c + p;
            && (r % 2 == 1 <==> p == 3) && (r / 2 % 2 == 1 <==> p == 3) && (r / 4 % 2 == 1 <==> c == 4) && r / 8 == x
  {
    var r := 8 * x + c + p;
    assert r / 2 == 4 * x + c / 2 + p / 2 && r / 4 == 2 * x + c / 4;
  }

  function ErpOf(es: seq<Element>): Option<u8> {
    var k := First(es, Id(EID_ERPINFO));
    if k < |es| && es[k].data != [] then Some(es[k].data[0]) else None
  }

  /** The element with that byte replaced. */
  function ErpElement(e: Element, protect: bool, barker: bool): Element
    requires e.data != []
  {
    Element(e.id, e.data[0 := ErpByte(e.data[0], protect, barker)])
  }

  function WithErp(es: seq<Element>, protect: bool, barker: bool): seq<Element> {
    if ErpOf(es) == None then es
    else
      var k := First(es, Id(EID_ERPINFO));
      es[k := ErpElement(es[k], protect, barker)]
  }

  lemma WithErpIs(es: seq<Element>, protect: bool, barker: bool)
    ensures var k := First(es, Id(EID_ERPINFO));
            WithErp(es, protect, barker) ==
              if k == |es| || es[k].data == [] then es
              else es[..k] + [ErpElement(es[k], protect, barker)] + es[k + 1..]
  {
    hide First, ErpElement;
    var k := First(es, Id(EID_ERPINFO));
    if k < |es| && es[k].data != [] {
      UpdatedIsSpliced(es, k, ErpElement(es[k], protect, barker));
    }
  }

  lemma UpdatedIsSpliced(es: seq<Element>, k: nat, e: Element)
    requires k < |es|
    ensures es[k := e] == es[..k] + [e] + es[k + 1..]
  {
  }

  lemma ErpByteIs(b: u8, protect: bool, barker: bool)
    ensures ErpByte(b, protect, barker) == b / 8 * 8 + (if barker then 4 else 0) + if protect then 3 else 0
  {
  }

  /** Writing the bits changes that byte of that element and no other element. */
  lemma ErpWritten(es: seq<Element>, protect: bool, barker: bool, other: u8)
    ensures ErpOf(WithErp(es, protect, barker)) ==
              match ErpOf(es) case None => None case Some(b) => Some(ErpByte(b, protect, barker))
    ensures var was, now := Lookup(es, Id(42)), Lookup(WithErp(es, protect, barker), Id(42));
            if was in {None, Some([])} then now == was
            else
              var b := was.value[0] / 8 * 8 + (if barker then 4 else 0) + if protect then 3 else 0;
              now == Some(was.value[0 := b])
    ensures other != 42 ==> Lookup(WithErp(es, protect, barker), Id(other)) == Lookup(es, Id(other))
  {
    hide First, Lookup, ErpByte;
    LookupFirst(es, Id(EID_ERPINFO));
    if ErpOf(es).Some? {
      ErpByteIs(ErpOf(es).value, protect, barker);
      LookupFirst(WithErp(es, protect, barker), Id(EID_ERPINFO));
      var k, es' := First(es, Id(EID_ERPINFO)), WithErp(es, protect, barker);
      FirstIs(es', Id(EID_ERPINFO), k);
      LookupSpliced(es[..k], [es[k]], es[k + 1..], Id(other));
      LookupSpliced(es[..k], [es'[k]], es[k + 1..], Id(other));
      LookupOne(es[k], Id(other));
      LookupOne(es'[k], Id(other));
      assert es == es[..k] + [es[k]] + es[k + 1..] && es' == es[..k] + [es'[k]] + es[k + 1..];
    }
  }

  // ----- runs -----

  type Flags = set<Kind>

  type Counts = map<Kind, int>

  /** All stations' flags, the counters, and the ERP element's byte. */
  datatype State = State(stas: seq<Flags>, counts: Counts, erp: u8)

  datatype Event = Join(sta: nat, caps: Caps) | Leave(sta: nat) | Coex(sta: nat, intolerant: bool)

  predicate HasAfter(e: Event, k: Kind, had: bool, htOn: bool) {
    match e
    case Join(_, caps) => HasAfterJoin(k, had, caps, htOn)
    case Leave(_) => false
    case Coex(_, intolerant) => had || (k == Intolerant40 && intolerant)
  }

  /** A leave does not take the 40 MHz intolerance counter below zero. */
  function CountAfter(e: Event, k: Kind, count: int, had: bool, has: bool): int {
    if e.Leave? && k == Intolerant40 && count <= 0 then count else count + Delta(had, has)
  }

  function FlagsAfter(e: Event, f: Flags, htOn: bool): Flags {
    set k: Kind | HasAfter(e, k, k in f, htOn)
  }

  function CountsAfter(e: Event, counts: Counts, f: Flags, f': Flags): Counts {
    map k: Kind | k in counts :: CountAfter(e, k, counts[k], k in f, k in f')
  }

  predicate AllCounted(counts: Counts) {
    forall k: Kind :: k in counts
  }

  function ErpAfter(erp: u8, counts: Counts, f: Flags, f': Flags): u8
    requires AllCounted(counts)
  {
    if Crossed(NonErp in f, NonErp in f', counts[NonErp])
    then ErpByte(erp, counts[NonErp] == 1, counts[NoShortPreamble] > 0) else erp
  }

  /** The BSS has started, ERP is enabled and the beacon has an ERP element. */
  function Step(s: State, e: Event, htOn: bool): State
    requires AllCounted(s.counts)
  {
    if e.sta >= |s.stas| then s
    else
      var f := s.stas[e.sta];
      var f' := FlagsAfter(e, f, htOn);
      var counts' := CountsAfter(e, s.counts, f, f');
      State(s.stas[e.sta := f'], counts', ErpAfter(s.erp, counts', f, f'))
  }

  function Run(s: State, es: seq<Event>, htOn: bool): (r: State)
    requires AllCounted(s.counts)
    ensures AllCounted(r.counts) && |r.stas| == |s.stas|
    decreases |es|
  {
    if es == [] then s else Step(Run(s, es[..|es| - 1], htOn), es[|es| - 1], htOn)
  }

  /** start_ap_mode: no station has joined, all counters are zero. */
  function Start(n: nat, erp: u8): State {
    State(seq(n, i => {}), NoCounts(), erp)
  }

  lemma KindIs(k: Kind)
    ensures k in {NoShortPreamble, NonErp, NoShortSlot, NoHt, NoGreenfield, Ht20Mhz, Intolerant40}
  {
    match k case NoShortPreamble => case NonErp => case NoShortSlot => case NoHt =>
    case NoGreenfield => case Ht20Mhz => case Intolerant40 =>
  }

  function NoCounts(): (c: Counts)
    ensures forall k: Kind :: k in c && c[k] == 0
  {
    var c: Counts := map[NoShortPreamble := 0, NonErp := 0, NoShortSlot := 0, NoHt := 0,
                         NoGreenfield := 0, Ht20Mhz := 0, Intolerant40 := 0];
    assert forall k: Kind :: k in c && c[k] == 0 by {
      forall k: Kind ensures k in c && c[k] == 0 {
        KindIs(k);
      }
    }
    c
  }

  function CountOf(stas: seq<Flags>, k: Kind): nat {
    if stas == [] then 0 else (if k in stas[0] then 1 else 0) + CountOf(stas[1..], k)
  }

  lemma {:induction false} CountUpdated(stas: seq<Flags>, i: nat, f: Flags, k: Kind)
    requires i < |stas|
    ensures CountOf(stas[i := f], k) == CountOf(stas, k) + Delta(k in stas[i], k in f)
    ensures k in stas[i] ==> CountOf(stas, k) >= 1
  {
    if i > 0 {
      CountUpdated(stas[1..], i - 1, f, k);
      assert stas[i := f][1..] == stas[1..][i - 1 := f];
    } else {
      assert stas[0 := f][1..] == stas[1..];
    }
  }

  lemma {:induction false} CountPositive(stas: seq<Flags>, k: Kind)
    ensures CountOf(stas, k) > 0 <==> exists i :: 0 <= i < |stas| && k in stas[i]
  {
    if stas != [] {
      CountPositive(stas[1..], k);
      if i :| 0 <= i < |stas[1..]| && k in stas[1..][i] {
        assert k in stas[i + 1];
      }
      if i :| 0 <= i < |stas| && k in stas[i] {
        assert i > 0 ==> k in stas[1..][i - 1];
      }
    }
  }

  lemma {:induction false} NoneCounted(n: nat, k: Kind)
    ensures CountOf(seq(n, i => {}), k) == 0
  {
    var stas: seq<Flags> := seq(n, i => {});
    CountPositive(stas, k);
  }

  /** Every counter counts its flag. */
  predicate Counted(s: State) {
    AllCounted(s.counts) && forall k: Kind :: s.counts[k] == CountOf(s.stas, k)
  }

  /** The protection bits are set exactly while the counter of stations without ERP is not zero. */
  predicate BitsFollow(s: State)
    requires AllCounted(s.counts)
  {
    (NonErpPresent(s.erp) <==> s.counts[NonErp] > 0) && (UseProtection(s.erp) <==> s.counts[NonErp] > 0)
  }

  lemma StepKeepsCounted(s: State, e: Event, htOn: bool)
    requires Counted(s)
    ensures Counted(Step(s, e, htOn))
  {
    hide HasAfter, ErpAfter, CountOf;
    if e.sta < |s.stas| {
      var f := s.stas[e.sta];
      var s' := Step(s, e, htOn);
      forall k: Kind ensures s'.counts[k] == CountOf(s'.stas, k) {
        CountUpdated(s.stas, e.sta, FlagsAfter(e, f, htOn), k);
        LeaveTakesAll(e, k, f, htOn);
      }
    }
  }

  lemma StepKeepsBits(s: State, e: Event, htOn: bool)
    requires Counted(s) && BitsFollow(s)
    ensures BitsFollow(Step(s, e, htOn))
  {
    hide NonErpPresent, UseProtection, HasAfter, ErpByte, CountOf;
    if e.sta < |s.stas| {
      var s' := Step(s, e, htOn);
      CountUpdated(s.stas, e.sta, FlagsAfter(e, s.stas[e.sta], htOn), NonErp);
      ErpBits(s.erp, s'.counts[NonErp] == 1, s'.counts[NoShortPreamble] > 0);
    }
  }

  lemma LeaveTakesAll(e: Event, k: Kind, f: Flags, htOn: bool)
    ensures e.Leave? ==> k !in FlagsAfter(e, f, htOn)
  {
  }

  lemma {:induction false} RunKeepsCounted(n: nat, erp: u8, es: seq<Event>, htOn: bool)
    ensures Counted(Run(Start(n, erp), es, htOn))
    decreases |es|
  {
    hide Step, CountOf;
    if es == [] {
      forall k: Kind ensures CountOf(Start(n, erp).stas, k) == 0 {
        NoneCounted(n, k);
      }
    } else {
      RunKeepsCounted(n, erp, es[..|es| - 1], htOn);
      StepKeepsCounted(Run(Start(n, erp), es[..|es| - 1], htOn), es[|es| - 1], htOn);
    }
  }

  predicate SomeStation(s: State, k: Kind) {
    exists i :: 0 <= i < |s.stas| && k in s.stas[i]
  }

  /** Some station had no ERP after one of the events. */
  predicate EverNonErp(n: nat, erp: u8, es: seq<Event>, htOn: bool) {
    exists i :: 0 <= i <= |es| && SomeStation(Run(Start(n, erp), es[..i], htOn), NonErp)
  }

  /** As long as no station without ERP comes, the element is not written. */
  lemma StepKeepsByte(s: State, e: Event, htOn: bool)
    requires Counted(s) && s.counts[NonErp] == 0
    ensures var s' := Step(s, e, htOn); if s'.counts[NonErp] == 0 then s'.erp == s.erp else BitsFollow(s')
  {
    hide NonErpPresent, UseProtection, HasAfter, ErpByte, CountOf;
    if e.sta < |s.stas| {
      var s' := Step(s, e, htOn);
      CountUpdated(s.stas, e.sta, FlagsAfter(e, s.stas[e.sta], htOn), NonErp);
      ErpBits(s.erp, s'.counts[NonErp] == 1, s'.counts[NoShortPreamble] > 0);
    }
  }

  /** The first station without ERP has the bits written, and they follow from then on. */
  lemma {:induction false} RunKeepsBits(n: nat, erp: u8, es: seq<Event>, htOn: bool)
    ensures var s := Run(Start(n, erp), es, htOn);
            if EverNonErp(n, erp, es, htOn) then BitsFollow(s) else s.erp == erp && s.counts[NonErp] == 0
    decreases |es|
  {
    hide Step, CountOf, Counted, BitsFollow, SomeStation;
    var s := Run(Start(n, erp), es, htOn);
    RunKeepsCounted(n, erp, es, htOn);
    CountedSome(s, NonErp);
    assert es[..|es|] == es;
    if es != [] {
      var front := es[..|es| - 1];
      var before := Run(Start(n, erp), front, htOn);
      RunKeepsBits(n, erp, front, htOn);
      RunKeepsCounted(n, erp, front, htOn);
      CountedSome(before, NonErp);
      assert forall i :: 0 <= i <= |front| ==> front[..i] == es[..i];
      assert EverNonErp(n, erp, es, htOn) <==> EverNonErp(n, erp, front, htOn) || SomeStation(s, NonErp);
      if EverNonErp(n, erp, front, htOn) {
        StepKeepsBits(before, es[|es| - 1], htOn);
      } else {
        StepKeepsByte(before, es[|es| - 1], htOn);
      }
    }
  }

  lemma CountedSome(s: State, k: Kind)
    requires Counted(s)
    ensures AllCounted(s.counts) && s.counts[k] >= 0 && (s.counts[k] > 0 <==> SomeStation(s, k))
  {
    CountPositive(s.stas, k);
  }

  /** A station without ERP joins. */
  predicate NonErpJoins(n: nat, e: Event) {
    e.Join? && e.sta < n && e.caps.nonErp
  }

  predicate NonErpJoined(n: nat, es: seq<Event>) {
    exists i :: 0 <= i < |es| && NonErpJoins(n, es[i])
  }

  lemma StepJoins(s: State, e: Event, htOn: bool)
    requires AllCounted(s.counts)
    ensures NonErpJoins(|s.stas|, e) ==> SomeStation(Step(s, e, htOn), NonErp)
    ensures SomeStation(Step(s, e, htOn), NonErp) ==> SomeStation(s, NonErp) || NonErpJoins(|s.stas|, e)
  {
    var s' := Step(s, e, htOn);
    if NonErpJoins(|s.stas|, e) {
      assert NonErp in s'.stas[e.sta];
    }
    if i :| 0 <= i < |s'.stas| && NonErp in s'.stas[i] {
      assert i != e.sta ==> NonErp in s.stas[i];
    }
  }

  /** There has been one exactly if one has joined. */
  lemma {:induction false} EverIsJoined(n: nat, erp: u8, es: seq<Event>, htOn: bool)
    ensures EverNonErp(n, erp, es, htOn) <==> NonErpJoined(n, es)
    decreases |es|
  {
    hide Step, SomeStation, NonErpJoins;
    NobodyYet(n, erp, htOn);
    assert es[..0] == [] && es[..|es|] == es;
    if es != [] {
      var k := |es| - 1;
      var front := es[..k];
      EverIsJoined(n, erp, front, htOn);
      StepJoins(Run(Start(n, erp), front, htOn), es[k], htOn);
      assert forall i :: 0 <= i <= k ==> front[..i] == es[..i];
      assert front[..k] == front;
      assert EverNonErp(n, erp, es, htOn) <==>
          EverNonErp(n, erp, front, htOn) || SomeStation(Run(Start(n, erp), es, htOn), NonErp);
      assert NonErpJoined(n, es) <==> NonErpJoined(n, front) || NonErpJoins(n, es[k]);
    }
  }

  lemma NobodyYet(n: nat, erp: u8, htOn: bool)
    ensures !SomeStation(Run(Start(n, erp), [], htOn), NonErp)
  {
    assert Run(Start(n, erp), [], htOn) == Start(n, erp);
  }

  // ----- what the flags say -----

  /** Station i has not left after event m. */
  predicate StaysFrom(es: seq<Event>, i: nat, m: int) {
    0 <= m < |es| && forall j :: m < j < |es| ==> es[j] != Leave(i)
  }

  predicate JoinOf(e: Event, i: nat) {
    e.Join? && e.sta == i
  }

  /** Event m is a join of station i which has not left since. */
  predicate Joined(es: seq<Event>, i: nat, m: int) {
    StaysFrom(es, i, m) && JoinOf(es[m], i)
  }

  /** And it has not joined again. */
  predicate LastJoin(es: seq<Event>, i: nat, m: int) {
    Joined(es, i, m) && forall j :: m < j < |es| ==> !JoinOf(es[j], i)
  }

  /** Event m is a report of 40 MHz intolerance by station i, which has not left since. */
  predicate Reported(es: seq<Event>, i: nat, m: int) {
    StaysFrom(es, i, m) && es[m] == Coex(i, true)
  }

  /**
   A station's flags say what it was like when it last joined, and of greenfield, 20 MHz and intolerance
   whether it has said so in any join or report since it last left; HT flags only change with HT on.
   */
  ghost predicate FlagsSay(f: Flags, es: seq<Event>, i: nat, htOn: bool) {
    && (NoShortPreamble in f <==> exists m :: LastJoin(es, i, m) && !es[m].caps.shortPreamble)
    && (NonErp in f <==> exists m :: LastJoin(es, i, m) && es[m].caps.nonErp)
    && (NoShortSlot in f <==> exists m :: LastJoin(es, i, m) && !es[m].caps.shortSlot)
    && (NoHt in f <==> htOn && exists m :: LastJoin(es, i, m) && !es[m].caps.ht)
    && (NoGreenfield in f <==> htOn && exists m :: Joined(es, i, m) && es[m].caps.ht && !es[m].caps.greenfield)
    && (Ht20Mhz in f <==> htOn && exists m :: Joined(es, i, m) && es[m].caps.ht && !es[m].caps.width40)
    && (Intolerant40 in f <==>
          || (htOn && exists m :: Joined(es, i, m) && es[m].caps.ht && es[m].caps.intolerant40)
          || (exists m :: Reported(es, i, m)))
  }

  lemma StaysSnoc(front: seq<Event>, e: Event, i: nat, m: int)
    ensures var es, n := front + [e], |front|;
            if m == n then StaysFrom(es, i, m) else StaysFrom(es, i, m) <==> StaysFrom(front, i, m) && e != Leave(i)
  {
    var es, n := front + [e], |front|;
    assert es[n] == e && forall j :: 0 <= j < n ==> es[j] == front[j];
  }

  /** An event that is not the last one counts as before, unless that is a leave or, for the last join, a join. */
  lemma SnocSays(front: seq<Event>, e: Event, i: nat, m: int)
    requires 0 <= m < |front|
    ensures var es := front + [e];
            && es[m] == front[m]
            && (Joined(es, i, m) <==> Joined(front, i, m) && e != Leave(i))
            && (Reported(es, i, m) <==> Reported(front, i, m) && e != Leave(i))
            && (LastJoin(es, i, m) <==> LastJoin(front, i, m) && e != Leave(i) && !JoinOf(e, i))
  {
    hide StaysFrom;
    StaysSnoc(front, e, i, m);
    var es, n := front + [e], |front|;
    assert es[n] == e && forall j :: 0 <= j < n ==> es[j] == front[j];
  }

  lemma LastSays(front: seq<Event>, e: Event, i: nat)
    ensures var es, n := front + [e], |front|;
            && es[n] == e
            && (Joined(es, i, n) <==> JoinOf(e, i)) && (LastJoin(es, i, n) <==> JoinOf(e, i))
            && (Reported(es, i, n) <==> e == Coex(i, true))
  {
    StaysSnoc(front, e, i, |front|);
  }

  lemma StepSays(front: seq<Event>, e: Event, i: nat, f: Flags, htOn: bool)
    requires FlagsSay(f, front, i, htOn)
    ensures FlagsSay(if e.sta == i then FlagsAfter(e, f, htOn) else f, front + [e], i, htOn)
  {
    hide Joined, LastJoin, Reported;
    var es := front + [e];
    LastSays(front, e, i);
    forall m | 0 <= m < |front|
      ensures es[m] == front[m]
      ensures Joined(es, i, m) <==> Joined(front, i, m) && e != Leave(i)
      ensures Reported(es, i, m) <==> Reported(front, i, m) && e != Leave(i)
      ensures LastJoin(es, i, m) <==> LastJoin(front, i, m) && e != Leave(i) && !JoinOf(e, i)
    {
      SnocSays(front, e, i, m);
    }
    forall m ensures Joined(es, i, m) || LastJoin(es, i, m) || Reported(es, i, m) ==> 0 <= m <= |front|
             ensures Joined(front, i, m) || LastJoin(front, i, m) || Reported(front, i, m) ==> 0 <= m < |front|
    {
      SaysRange(es, i, m);
      SaysRange(front, i, m);
    }
  }

  lemma SaysRange(es: seq<Event>, i: nat, m: int)
    ensures Joined(es, i, m) || LastJoin(es, i, m) || Reported(es, i, m) ==> 0 <= m < |es|
  {
  }

  lemma {:induction false} FlagsExactly(n: nat, erp: u8, es: seq<Event>, htOn: bool, i: nat)
    requires i < n
    ensures FlagsSay(Run(Start(n, erp), es, htOn).stas[i], es, i, htOn)
    decreases |es|
  {
    hide FlagsSay, FlagsAfter;
    if es == [] {
      NothingSaid(i, htOn);
    } else {
      var front, e := es[..|es| - 1], es[|es| - 1];
      FlagsExactly(n, erp, front, htOn, i);
      StepSays(front, e, i, Run(Start(n, erp), front, htOn).stas[i], htOn);
      assert front + [e] == es;
    }
  }

  lemma NothingSaid(i: nat, htOn: bool)
    ensures FlagsSay({}, [], i, htOn)
  {
  }

  /**
   Over any run from start_ap_mode each counter is the number of stations with its flag. Once a station
   without ERP has joined, the Non-ERP-Present and Use-Protection bits are set if and only if some
   station has no ERP, although they are only ever written when the counter reaches 1 or 0; until then
   the byte is the one the access point was started with.
   */
  lemma ProtectionBits(n: nat, erp: u8, es: seq<Event>, htOn: bool, k: Kind)
    ensures var s := Run(Start(n, erp), es, htOn);
            && s.counts[k] == CountOf(s.stas, k)
            && (NonErpJoined(n, es) ==>
                  && (NonErpPresent(s.erp) <==> SomeStation(s, NonErp))
                  && (UseProtection(s.erp) <==> SomeStation(s, NonErp)))
            && (!NonErpJoined(n, es) ==> s.erp == erp && !SomeStation(s, NonErp))
  {
    hide Run, Step, EverNonErp, NonErpJoined, SomeStation;
    RunKeepsCounted(n, erp, es, htOn);
    RunKeepsBits(n, erp, es, htOn);
    EverIsJoined(n, erp, es, htOn);
    CountedSome(Run(Start(n, erp), es, htOn), NonErp);
  }

  /** So a bit is right after a run exactly if it was clear at the start, or a station without ERP has joined. */
  lemma ProtectionExactly(n: nat, erp: u8, es: seq<Event>, htOn: bool)
    ensures var s := Run(Start(n, erp), es, htOn);
            var some := SomeStation(s, NonErp);
            && ((NonErpPresent(s.erp) <==> some) <==> !NonErpPresent(erp) || NonErpJoined(n, es))
            && ((UseProtection(s.erp) <==> some) <==> !UseProtection(erp) || NonErpJoined(n, es))
  {
    hide Run, NonErpPresent, UseProtection, NonErpJoined, SomeStation;
    ProtectionBits(n, erp, es, htOn, NonErp);
  }

  /** Started with Use-Protection set, with one station joined that has everything: the bit stays set. */
  lemma ProtectionStays()
    ensures var s := Run(Start(1, 2), [Join(0, Caps(true, false, true, true, true, true, false))], true);
            UseProtection(s.erp) && !SomeStation(s, NonErp)
  {
    var e := Join(0, Caps(true, false, true, true, true, true, false));
    assert [e][..0] == [];
    var s := Start(1, 2);
    assert Run(s, [], true) == s;
    assert NonErp !in FlagsAfter(e, {}, true);
  }

  /** The count of stations without short preamble when the element was last written; -1 if never. */
  function PreamblesAtWrite(s: State, es: seq<Event>, htOn: bool): int
    requires AllCounted(s.counts)
    decreases |es|
  {
    if es == [] then -1
    else
      var n := |es| - 1;
      var before, after := Run(s, es[..n], htOn), Run(s, es, htOn);
      var i := es[n].sta;
      if i < |before.stas| && Crossed(NonErp in before.stas[i], NonErp in after.stas[i], after.counts[NonErp])
      then after.counts[NoShortPreamble] else PreamblesAtWrite(s, es[..n], htOn)
  }

  /** The Barker bit says what held when the element was last written, which need not hold any more. */
  lemma {:induction false} BarkerLags(n: nat, erp: u8, es: seq<Event>, htOn: bool)
    ensures var m := PreamblesAtWrite(Start(n, erp), es, htOn);
            BarkerMode(Run(Start(n, erp), es, htOn).erp) <==> if m < 0 then BarkerMode(erp) else m > 0
    decreases |es|
  {
    hide BarkerMode, ErpByte, HasAfter, CountOf;
    if es != [] {
      var k := |es| - 1;
      BarkerLags(n, erp, es[..k], htOn);
      var before, after := Run(Start(n, erp), es[..k], htOn), Run(Start(n, erp), es, htOn);
      ErpBits(before.erp, after.counts[NonErp] == 1, after.counts[NoShortPreamble] > 0);
      RunKeepsCounted(n, erp, es, htOn);
    }
  }

  predicate BarkerRight(s: State) {
    BarkerMode(s.erp) <==> SomeStation(s, NoShortPreamble)
  }

  /** The first station without short preamble comes, or the last one goes, and the element is not written. */
  predicate Lags(s: State, e: Event, htOn: bool)
    requires AllCounted(s.counts)
  {
    var s' := Step(s, e, htOn);
    && e.sta < |s.stas|
    && !(SomeStation(s, NoShortPreamble) <==> SomeStation(s', NoShortPreamble))
    && !Crossed(NonErp in s.stas[e.sta], NonErp in s'.stas[e.sta], s'.counts[NonErp])
  }

  lemma StepLags(s: State, e: Event, htOn: bool)
    requires Counted(s) && BarkerRight(s)
    ensures BarkerRight(Step(s, e, htOn)) <==> !Lags(s, e, htOn)
  {
    hide BarkerMode, ErpByte, HasAfter, CountOf, SomeStation;
    if e.sta < |s.stas| {
      var s' := Step(s, e, htOn);
      StepKeepsCounted(s, e, htOn);
      CountedSome(s', NoShortPreamble);
      ErpBits(s.erp, s'.counts[NonErp] == 1, s'.counts[NoShortPreamble] > 0);
    }
  }

  /** The Barker bit is right at every point of a run exactly if it was clear at the start and no event lets it lag. */
  lemma {:induction false} BarkerExactly(n: nat, erp: u8, es: seq<Event>, htOn: bool)
    ensures (forall i :: 0 <= i <= |es| ==> BarkerRight(Run(Start(n, erp), es[..i], htOn)))
        <==> !BarkerMode(erp) && forall i :: 0 <= i < |es| ==> !Lags(Run(Start(n, erp), es[..i], htOn), es[i], htOn)
    decreases |es|
  {
    hide Run, BarkerMode, BarkerRight, Lags, Counted;
    BarkerAtStart(n, erp, htOn);
    assert es[..0] == [];
    if es != [] {
      var k := |es| - 1;
      var front := es[..k];
      BarkerExactly(n, erp, front, htOn);
      assert forall i :: 0 <= i <= k ==> front[..i] == es[..i];
      assert es[..k + 1] == es;
      RunKeepsCounted(n, erp, front, htOn);
      RunSnoc(Start(n, erp), es, htOn);
      if BarkerRight(Run(Start(n, erp), front, htOn)) {
        StepLags(Run(Start(n, erp), front, htOn), es[k], htOn);
      } else {
        assert !BarkerRight(Run(Start(n, erp), es[..k], htOn)) && !BarkerRight(Run(Start(n, erp), front[..k], htOn));
      }
    }
  }

  lemma BarkerAtStart(n: nat, erp: u8, htOn: bool)
    ensures BarkerRight(Run(Start(n, erp), [], htOn)) <==> !BarkerMode(erp)
  {
    hide BarkerMode;
    assert Run(Start(n, erp), [], htOn) == Start(n, erp);
  }

  lemma RunSnoc(s: State, es: seq<Event>, htOn: bool)
    requires AllCounted(s.counts) && es != []
    ensures Run(s, es, htOn) == Step(Run(s, es[..|es| - 1], htOn), es[|es| - 1], htOn)
  {
  }

  /** One ERP station without short preamble: counted, but the Barker bit stays clear. */
  lemma BarkerMissed()
    ensures var s := Run(Start(1, 0), [Join(0, Caps(false, false, true, true, true, true, false))], true);
            s.counts[NoShortPreamble] == 1 && !BarkerMode(s.erp)
  {
    var e := Join(0, Caps(false, false, true, true, true, true, false));
    assert [e][..0] == [];
    var s := Start(1, 0);
    assert Run(s, [], true) == s;
    var f' := FlagsAfter(e, {}, true);
    assert NoShortPreamble in f' && NonErp !in f';
  }

  // ----- in place -----

  /** The flags of struct sta_info. */
  class Sta {
    var noShortPreambleSet: bool
    var nonErpSet: bool
    var noShortSlotTimeSet: bool
    var noHtSet: bool
    var noHtGfSet: bool
    var ht20MhzSet: bool
    var ht40MhzIntolerant: bool

    constructor ()
      ensures forall k: Kind :: !Has(k)
    {
      noShortPreambleSet, nonErpSet, noShortSlotTimeSet := false, false, false;
      noHtSet, noHtGfSet, ht20MhzSet, ht40MhzIntolerant := false, false, false, false;
    }

    predicate Has(k: Kind)
      reads this
    {
      match k
      case NoShortPreamble => noShortPreambleSet
      case NonErp => nonErpSet
      case NoShortSlot => noShortSlotTimeSet
      case NoHt => noHtSet
      case NoGreenfield => noHtGfSet
      case Ht20Mhz => ht20MhzSet
      case Intolerant40 => ht40MhzIntolerant
    }
  }

  /** The counters of struct link_mlme_priv, with the beacon they drive. */
  class ApLink {
    var numStaNoShortPreamble: int
    var numStaNonErp: int
    var numStaNoShortSlotTime: int
    var numStaNoHt: int
    var numStaHtNoGf: int
    var numStaHt20Mhz: int
    var numSta40MhzIntolerant: int
    const htOn: bool
    var erpEnable: bool
    var bstartBss: bool
    const bss: BssNetwork

    /** start_ap_mode */
    constructor (htOn: bool, bss: BssNetwork)
      ensures this.htOn == htOn && this.bss == bss && !bstartBss && forall k: Kind :: CountFor(k) == 0
    {
      this.htOn, this.bss := htOn, bss;
      erpEnable, bstartBss := false, false;
      numStaNoShortPreamble, numStaNonErp, numStaNoShortSlotTime := 0, 0, 0;
      numStaNoHt, numStaHtNoGf, numStaHt20Mhz, numSta40MhzIntolerant := 0, 0, 0, 0;
    }

    function CountFor(k: Kind): int
      reads this
    {
      match k
      case NoShortPreamble => numStaNoShortPreamble
      case NonErp => numStaNonErp
      case NoShortSlot => numStaNoShortSlotTime
      case NoHt => numStaNoHt
      case NoGreenfield => numStaHtNoGf
      case Ht20Mhz => numStaHt20Mhz
      case Intolerant40 => numSta40MhzIntolerant
    }

    /** The beacon once the counters have been changed; had and has tell the station's NonErp flag before and after. */
    ghost function BeaconAfter(es: seq<Element>, had: bool, has: bool): seq<Element>
      reads this
    {
      if bstartBss && erpEnable && Crossed(had, has, numStaNonErp)
      then WithErp(es, numStaNonErp == 1, numStaNoShortPreamble > 0) else es
    }

    /** In a started BSS with an ERP element that is what a step of a run does to the element's byte. */
    lemma BeaconIsStep(es: seq<Element>, had: bool, has: bool)
      requires bstartBss && erpEnable && ErpOf(es).Some?
      ensures ErpOf(BeaconAfter(es, had, has)) ==
                Some(if Crossed(had, has, numStaNonErp)
                     then ErpByte(ErpOf(es).value, numStaNonErp == 1, numStaNoShortPreamble > 0) else ErpOf(es).value)
    {
      hide ErpOf, WithErp, ErpByte;
      ErpWritten(es, numStaNonErp == 1, numStaNoShortPreamble > 0, 0);
    }

    /** rtw_update_beacon for the ERP element: update_bcn_erpinfo_ie */
    method UpdateBcnErpInfo(ghost es: seq<Element>)
      requires bss.Holds(es)
      modifies bss.IEs
      ensures bss.IEs[..FIXED_IE_LENGTH] == old(bss.IEs[..FIXED_IE_LENGTH])
      ensures bss.Holds(
                if bstartBss && erpEnable then WithErp(es, numStaNonErp == 1, numStaNoShortPreamble > 0) else es)
    {
      hide Encode, Off, First, WithErp, ErpByte, Wire;
      WithErpIs(es, numStaNonErp == 1, numStaNoShortPreamble > 0);
      if !bstartBss || !erpEnable {
        return;
      }
      var p, len := GetIe(bss.IEs, FIXED_IE_LENGTH, bss.IELength - FIXED_IE_LENGTH, Id(EID_ERPINFO), es);
      if p != -1 && len > 0 {
        ghost var k := First(es, Id(EID_ERPINFO));
        var b := DataByte(p, es, k);
        var byte := ErpByte(b, numStaNonErp == 1, numStaNoShortPreamble > 0);
        bss.ReadAt(es, k);
        bss.SetDataByte(p, 0, byte, es, k);
        WithErpIs(es, numStaNonErp == 1, numStaNoShortPreamble > 0);
      }
    }

    method DataByte(p: nat, ghost es: seq<Element>, ghost k: nat) returns (b: u8)
      requires bss.Holds(es) && k < |es| && p == FIXED_IE_LENGTH + Off(es, k) && es[k].data != []
      ensures b == es[k].data[0]
    {
      hide Encode, Off;
      bss.ReadAt(es, k);
      ElementAt(es, k);
      b := bss.IEs[p + 2];
      assert b == bss.IEs[FIXED_IE_LENGTH..bss.IELength][Off(es, k) + 2];
    }

    /** One flag and its counter; a join sets or clears it, a leave clears it. */
    method SetNoShortPreamble(psta: Sta, on: bool)
      modifies this`numStaNoShortPreamble, psta`noShortPreambleSet
      ensures psta.noShortPreambleSet == on
      ensures numStaNoShortPreamble == old(numStaNoShortPreamble) + Delta(old(psta.noShortPreambleSet), on)
    {
      if on {
        if !psta.noShortPreambleSet {
          psta.noShortPreambleSet := true;
          numStaNoShortPreamble := numStaNoShortPreamble + 1;
        }
      } else {
        if psta.noShortPreambleSet {
          psta.noShortPreambleSet := false;
          numStaNoShortPreamble := numStaNoShortPreamble - 1;
        }
      }
    }

    /** The same for ERP, where the beacon is written when the counter reaches 1 or 0. */
    method SetNonErp(psta: Sta, on: bool, ghost es: seq<Element>)
      requires bss.Holds(es)
      modifies this`numStaNonErp, psta`nonErpSet, bss.IEs
      ensures psta.nonErpSet == on
      ensures numStaNonErp == old(numStaNonErp) + Delta(old(psta.nonErpSet), on)
      ensures bss.Holds(BeaconAfter(es, old(psta.nonErpSet), on))
      ensures bss.IEs[..FIXED_IE_LENGTH] == old(bss.IEs[..FIXED_IE_LENGTH])
    {
      hide WithErp;
      if on {
        if !psta.nonErpSet {
          psta.nonErpSet := true;
          numStaNonErp := numStaNonErp + 1;
          if numStaNonErp == 1 {
            UpdateBcnErpInfo(es);
          }
        }
      } else {
        if psta.nonErpSet {
          psta.nonErpSet := false;
          numStaNonErp := numStaNonErp - 1;
          if numStaNonErp == 0 {
            UpdateBcnErpInfo(es);
          }
        }
      }
    }

    /** Short slot time. */
    method SetNoShortSlotTime(psta: Sta, on: bool)
      modifies this`numStaNoShortSlotTime, psta`noShortSlotTimeSet
      ensures psta.noShortSlotTimeSet == on
      ensures numStaNoShortSlotTime == old(numStaNoShortSlotTime) + Delta(old(psta.noShortSlotTimeSet), on)
    {
      if on {
        if !psta.noShortSlotTimeSet {
          psta.noShortSlotTimeSet := true;
          numStaNoShortSlotTime := numStaNoShortSlotTime + 1;
        }
      } else {
        if psta.noShortSlotTimeSet {
          psta.noShortSlotTimeSet := false;
          numStaNoShortSlotTime := numStaNoShortSlotTime - 1;
        }
      }
    }

    /** HT at all. */
    method SetNoHt(psta: Sta, on: bool)
      modifies this`numStaNoHt, psta`noHtSet
      ensures psta.noHtSet == on
      ensures numStaNoHt == old(numStaNoHt) + Delta(old(psta.noHtSet), on)
    {
      if on {
        if !psta.noHtSet {
          psta.noHtSet := true;
          numStaNoHt := numStaNoHt + 1;
        }
      } else {
        if psta.noHtSet {
          psta.noHtSet := false;
          numStaNoHt := numStaNoHt - 1;
        }
      }
    }

    /** HT greenfield; a join only ever sets it. */
    method SetNoHtGf(psta: Sta, on: bool)
      modifies this`numStaHtNoGf, psta`noHtGfSet
      ensures psta.noHtGfSet == on
      ensures numStaHtNoGf == old(numStaHtNoGf) + Delta(old(psta.noHtGfSet), on)
    {
      if on {
        if !psta.noHtGfSet {
          psta.noHtGfSet := true;
          numStaHtNoGf := numStaHtNoGf + 1;
        }
      } else {
        if psta.noHtGfSet {
          psta.noHtGfSet := false;
          numStaHtNoGf := numStaHtNoGf - 1;
        }
      }
    }

    /** 20 MHz HT; a join only ever sets it. */
    method SetHt20Mhz(psta: Sta, on: bool)
      modifies this`numStaHt20Mhz, psta`ht20MhzSet
      ensures psta.ht20MhzSet == on
      ensures numStaHt20Mhz == old(numStaHt20Mhz) + Delta(old(psta.ht20MhzSet), on)
    {
      if on {
        if !psta.ht20MhzSet {
          psta.ht20MhzSet := true;
          numStaHt20Mhz := numStaHt20Mhz + 1;
        }
      } else {
        if psta.ht20MhzSet {
          psta.ht20MhzSet := false;
          numStaHt20Mhz := numStaHt20Mhz - 1;
        }
      }
    }

    /** Field by field: the flags that do not depend on HT are as given, and each counter has moved with its flag. */
    twostate predicate MovedLegacy(psta: Sta, preamble: bool, nonErp: bool, slot: bool)
      reads this, psta
    {
      && psta.noShortPreambleSet == preamble && psta.nonErpSet == nonErp && psta.noShortSlotTimeSet == slot
      && numStaNoShortPreamble == old(numStaNoShortPreamble) + Delta(old(psta.noShortPreambleSet), preamble)
      && numStaNonErp == old(numStaNonErp) + Delta(old(psta.nonErpSet), nonErp)
      && numStaNoShortSlotTime == old(numStaNoShortSlotTime) + Delta(old(psta.noShortSlotTimeSet), slot)
    }

    /** The same for three of the HT flags. */
    twostate predicate MovedHt(psta: Sta, noHt: bool, gf: bool, ht20: bool)
      reads this, psta
    {
      && psta.noHtSet == noHt && psta.noHtGfSet == gf && psta.ht20MhzSet == ht20
      && numStaNoHt == old(numStaNoHt) + Delta(old(psta.noHtSet), noHt)
      && numStaHtNoGf == old(numStaHtNoGf) + Delta(old(psta.noHtGfSet), gf)
      && numStaHt20Mhz == old(numStaHt20Mhz) + Delta(old(psta.ht20MhzSet), ht20)
    }

    /** The HT part of a join, which does nothing unless the driver supports HT. */
    method JoinHt(psta: Sta, caps: Caps)
      modifies this`numStaNoHt, this`numStaHtNoGf, this`numStaHt20Mhz, this`numSta40MhzIntolerant
      modifies psta`noHtSet, psta`noHtGfSet, psta`ht20MhzSet, psta`ht40MhzIntolerant
      ensures MovedHt(psta, if htOn then !caps.ht else old(psta.noHtSet),
                      old(psta.noHtGfSet) || (htOn && caps.ht && !caps.greenfield),
                      old(psta.ht20MhzSet) || (htOn && caps.ht && !caps.width40))
      ensures psta.ht40MhzIntolerant == (old(psta.ht40MhzIntolerant) || (htOn && caps.ht && caps.intolerant40))
      ensures numSta40MhzIntolerant ==
                old(numSta40MhzIntolerant) + Delta(old(psta.ht40MhzIntolerant), psta.ht40MhzIntolerant)
    {
      if !htOn {
        return;
      }
      SetNoHt(psta, !caps.ht);
      if caps.ht {
        if !caps.greenfield {
          SetNoHtGf(psta, true);
        }
        if !caps.width40 {
          SetHt20Mhz(psta, true);
        }
        if caps.intolerant40 && !psta.ht40MhzIntolerant {
          psta.ht40MhzIntolerant := true;
          numSta40MhzIntolerant := numSta40MhzIntolerant + 1;
        }
      }
    }

    /** The part of a join that does not depend on HT. */
    method JoinLegacy(psta: Sta, caps: Caps, ghost es: seq<Element>)
      requires bss.Holds(es)
      modifies this`numStaNoShortPreamble, this`numStaNonErp, this`numStaNoShortSlotTime, bss.IEs
      modifies psta`noShortPreambleSet, psta`nonErpSet, psta`noShortSlotTimeSet
      ensures MovedLegacy(psta, !caps.shortPreamble, caps.nonErp, !caps.shortSlot)
      ensures bss.Holds(BeaconAfter(es, old(psta.nonErpSet), psta.nonErpSet))
    {
      hide WithErp, Delta, Crossed, Encode;
      SetNoShortPreamble(psta, !caps.shortPreamble);
      SetNonErp(psta, caps.nonErp, es);
      SetNoShortSlotTime(psta, !caps.shortSlot);
    }

    /** bss_cap_update_on_sta_join */
    method UpdateOnStaJoin(psta: Sta, caps: Caps, ghost es: seq<Element>)
      requires bss.Holds(es)
      modifies this, psta, bss.IEs
      ensures bstartBss == old(bstartBss) && erpEnable == old(erpEnable)
      ensures MovedLegacy(psta, !caps.shortPreamble, caps.nonErp, !caps.shortSlot)
      ensures MovedHt(psta, if htOn then !caps.ht else old(psta.noHtSet),
                      old(psta.noHtGfSet) || (htOn && caps.ht && !caps.greenfield),
                      old(psta.ht20MhzSet) || (htOn && caps.ht && !caps.width40))
      ensures psta.ht40MhzIntolerant == (old(psta.ht40MhzIntolerant) || (htOn && caps.ht && caps.intolerant40))
      ensures numSta40MhzIntolerant ==
                old(numSta40MhzIntolerant) + Delta(old(psta.ht40MhzIntolerant), psta.ht40MhzIntolerant)
      ensures bss.Holds(BeaconAfter(es, old(psta.nonErpSet), psta.nonErpSet))
    {
      hide WithErp, Delta, Crossed, Encode;
      JoinLegacy(psta, caps, es);
      JoinHt(psta, caps);
    }

    /** Which is what the steps of a run do to each flag and its counter. */
    twostate lemma JoinIsStep(psta: Sta, caps: Caps, k: Kind)
      requires MovedLegacy(psta, !caps.shortPreamble, caps.nonErp, !caps.shortSlot)
      requires MovedHt(psta, if htOn then !caps.ht else old(psta.noHtSet),
                      old(psta.noHtGfSet) || (htOn && caps.ht && !caps.greenfield),
                      old(psta.ht20MhzSet) || (htOn && caps.ht && !caps.width40))
      requires psta.ht40MhzIntolerant == (old(psta.ht40MhzIntolerant) || (htOn && caps.ht && caps.intolerant40))
      requires numSta40MhzIntolerant ==
                 old(numSta40MhzIntolerant) + Delta(old(psta.ht40MhzIntolerant), psta.ht40MhzIntolerant)
      ensures psta.Has(k) == HasAfter(Join(0, caps), k, old(psta.Has(k)), htOn)
      ensures CountFor(k) == CountAfter(Join(0, caps), k, old(CountFor(k)), old(psta.Has(k)), psta.Has(k))
    {
      hide Delta;
    }

    /** The HT part of a leave, which does not take the counter of 40 MHz intolerance below zero. */
    method LeaveHt(psta: Sta)
      modifies this`numStaNoHt, this`numStaHtNoGf, this`numStaHt20Mhz, this`numSta40MhzIntolerant
      modifies psta`noHtSet, psta`noHtGfSet, psta`ht20MhzSet, psta`ht40MhzIntolerant
      ensures MovedHt(psta, false, false, false) && !psta.ht40MhzIntolerant
      ensures numSta40MhzIntolerant ==
                CountAfter(Leave(0), Intolerant40, old(numSta40MhzIntolerant), old(psta.ht40MhzIntolerant), false)
    {
      SetNoHtGf(psta, false);
      SetNoHt(psta, false);
      SetHt20Mhz(psta, false);
      if psta.ht40MhzIntolerant {
        psta.ht40MhzIntolerant := false;
        if numSta40MhzIntolerant > 0 {
          numSta40MhzIntolerant := numSta40MhzIntolerant - 1;
        }
      }
    }

    /** bss_cap_update_on_sta_leave, without the traffic map */
    method UpdateOnStaLeave(psta: Sta, ghost es: seq<Element>)
      requires bss.Holds(es)
      modifies this, psta, bss.IEs
      ensures bstartBss == old(bstartBss) && erpEnable == old(erpEnable)
      ensures MovedLegacy(psta, false, false, false) && MovedHt(psta, false, false, false) && !psta.ht40MhzIntolerant
      ensures numSta40MhzIntolerant ==
                CountAfter(Leave(0), Intolerant40, old(numSta40MhzIntolerant), old(psta.ht40MhzIntolerant), false)
      ensures bss.Holds(BeaconAfter(es, old(psta.nonErpSet), false))
    {
      hide WithErp, Delta, Crossed, CountAfter, Encode;
      SetNoShortPreamble(psta, false);
      SetNonErp(psta, false, es);
      SetNoShortSlotTime(psta, false);
      LeaveHt(psta);
    }

    twostate lemma LeaveIsStep(psta: Sta, k: Kind)
      requires MovedLegacy(psta, false, false, false) && MovedHt(psta, false, false, false) && !psta.ht40MhzIntolerant
      requires numSta40MhzIntolerant ==
                 CountAfter(Leave(0), Intolerant40, old(numSta40MhzIntolerant), old(psta.ht40MhzIntolerant), false)
      ensures psta.Has(k) == HasAfter(Leave(0), k, old(psta.Has(k)), htOn)
      ensures CountFor(k) == CountAfter(Leave(0), k, old(CountFor(k)), old(psta.Has(k)), psta.Has(k))
    {
      hide Delta;
    }

    /** The 40 MHz intolerance part of rtw_process_public_act_bsscoex. */
    method ProcessBssCoex(psta: Sta, intolerant: bool)
      modifies this`numSta40MhzIntolerant, psta`ht40MhzIntolerant
      ensures psta.ht40MhzIntolerant == (old(psta.ht40MhzIntolerant) || intolerant)
      ensures numSta40MhzIntolerant ==
                old(numSta40MhzIntolerant) + Delta(old(psta.ht40MhzIntolerant), psta.ht40MhzIntolerant)
    {
      if intolerant {
        if !psta.ht40MhzIntolerant {
          psta.ht40MhzIntolerant := true;
          numSta40MhzIntolerant := numSta40MhzIntolerant + 1;
        }
      }
    }
  }
}
