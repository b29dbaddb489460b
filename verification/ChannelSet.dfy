/**
 The channel set of rtw_chset.c and how rtw_chplan.c applies regulatory requests to it: each applied
 request can only take channels away or add restrictions, and what is left is the intersection. Only
 beacon hints can loosen a channel, where the country of the status allows them.
 */
module ChannelSet {
  import opened Common
  import opened Regd

  datatype Band = Band24G | Band5G | Band6G

  /** RTW_CHF_*: the number of each flag's bit. */
  const DIS := 0
  const NO_IR := 1
  const DFS := 2
  const NO_HT40U := 3
  const NO_HT40L := 4
  const NO_80MHZ := 5
  const NO_160MHZ := 6

  const CHANNEL_WIDTH_40 := 1
  const CHANNEL_WIDTH_80 := 2
  const CHANNEL_WIDTH_160 := 3

  /** RT_CHANNEL_INFO; bcnHint is the outcome of CH_IS_BCN_HINT at the time of the call. */
  datatype Info = Info(band: Band, num: u8, flags: bv8, regNoIr: bool, bcnHint: bool)

  /**
   regdb_ops: is a code valid in the 2G/5G and in the 6G table, and a channel's flags in a domain of
   either, if it is in there; and what the OS says of a channel (wiphy_chan_get_rtw_ch_flags).
   */
  datatype RegDb = RegDb(
    valid: u8 -> bool,
    valid6g: u8 -> bool,
    ch: (u8, u8) -> Option<bv8>,
    ch6g: (u8, u8) -> Option<bv8>,
    os: (Band, u8) -> bv8)

  /** What apart from the requests decides: dis_ch_flags, 11a enabled, excluded channels, the status' country. */
  datatype Conf = Conf(disFlags: bv8, en11a: bool, excl: seq<u8>, excl6g: seq<u8>, alpha2: Alpha2)

  predicate Disabled(c: Info) {
    BitSet(c.flags, DIS)
  }

  // ----- one channel -----

  /** A zero ends the list of excluded channels. */
  predicate IsExcluded(excl: seq<u8>, ch: u8) {
    excl != [] && excl[0] != 0 && (excl[0] == ch || IsExcluded(excl[1..], ch))
  }

  predicate Excluded(conf: Conf, band: Band, num: u8) {
    match band
    case Band24G => IsExcluded(conf.excl, num)
    case Band5G => !conf.en11a || IsExcluded(conf.excl, num)
    case Band6G => IsExcluded(conf.excl6g, num)
  }

  /** What a request says about a channel. */
  datatype Verdict = Skip | Deny | Allow(flags: bv8)

  predicate Meets(flags: bv8, mask: bv8) {
    flags & mask != 0
  }

  /** The 6G code is checked against the validity table of the 2G/5G codes, as the code does. */
  function Judge(db: RegDb, disFlags: bv8, r: Req, band: Band, num: u8): Verdict {
    if r.src == REGD_SRC_RTK_PRIV then
      if !db.valid(if band == Band6G then r.plan.domain6g else r.plan.domain) then Skip
      else match Found(db, r, band, num)
           case None => Deny
           case Some(f) => if Meets(f, disFlags) then Deny else Allow(f)
    else
      var f := db.os(band, num);
      if BitSet(f, DIS) || Meets(f, disFlags) then Deny else Allow(f)
  }

  function Found(db: RegDb, r: Req, band: Band, num: u8): Option<bv8> {
    if band == Band6G then db.ch6g(r.plan.domain6g, num) else db.ch(r.plan.domain, num)
  }

  function Step(flags: bv8, v: Verdict): bv8 {
    if BitSet(flags, DIS) then flags
    else match v
         case Skip => flags
         case Deny => Bit(DIS)
         case Allow(f) => flags | f
  }

  /** The verdicts of the applied requests, in list order. */
  function Verdicts(db: RegDb, disFlags: bv8, reqs: seq<Req>, band: Band, num: u8): seq<Verdict>
    decreases |reqs|
  {
    if reqs == [] then []
    else
      var n := |reqs| - 1;
      var front := Verdicts(db, disFlags, reqs[..n], band, num);
      if reqs[n].applied then front + [Judge(db, disFlags, reqs[n], band, num)] else front
  }

  function FlagsAfter(flags: bv8, vs: seq<Verdict>): bv8
    decreases |vs|
  {
    if vs == [] then flags else Step(FlagsAfter(flags, vs[..|vs| - 1]), vs[|vs| - 1])
  }

  /** The flags before beacon hints are taken into account. */
  function RegFlags(conf: Conf, db: RegDb, reqs: seq<Req>, band: Band, num: u8): bv8 {
    FlagsAfter(if Excluded(conf, band, num) then Bit(DIS) else 0, Verdicts(db, conf.disFlags, reqs, band, num))
  }

  /** rtw_chinfo_allow_beacon_hint, with both build switches off */
  predicate AllowsHint(band: Band, num: u8, flags: bv8) {
    !(band == Band24G && num <= 11) && !BitSet(flags, DFS)
  }

  /** rtw_rfctl_reg_allow_beacon_hint, its build switch off: no particular country is set */
  predicate HintRule(alpha2: Alpha2) {
    alpha2 in {WORLDWIDE_ALPHA2, UNSPEC_ALPHA2, INTERSECTED_ALPHA2}
  }

  function WithHint(conf: Conf, c: Info): bv8 {
    if !BitSet(c.flags, DIS) && BitSet(c.flags, NO_IR) && c.bcnHint && HintRule(conf.alpha2)
       && AllowsHint(c.band, c.num, c.flags)
    then c.flags & !Bit(NO_IR)
    else c.flags
  }

  /** What rtw_rfctl_chset_apply_regulatory makes of a channel. It goes by band, number and hint time only. */
  function Final(conf: Conf, db: RegDb, reqs: seq<Req>, c: Info): Info {
    var flags := RegFlags(conf, db, reqs, c.band, c.num);
    var seen := c.(flags := flags, regNoIr := BitSet(flags, NO_IR));
    seen.(flags := WithHint(conf, seen))
  }

  // ----- the intersection -----

  predicate Permits(v: Verdict) {
    v != Deny && (v.Allow? ==> !BitSet(v.flags, DIS))
  }

  predicate Restricts(v: Verdict, k: nat) {
    v.Allow? && BitSet(v.flags, k)
  }

  lemma OrBits(x: bv8, y: bv8, k: nat)
    ensures BitSet(x | y, k) <==> BitSet(x, k) || BitSet(y, k)
  {
  }

  lemma DisBit()
    ensures BitSet(Bit(DIS), DIS) && forall k: nat :: !BitSet(0, k)
  {
  }

  /** The fold over verdicts: open if all permit, and then with all their flags. */
  lemma {:induction false} FlagsAfterMeans(flags: bv8, vs: seq<Verdict>, k: nat)
    ensures !BitSet(FlagsAfter(flags, vs), DIS) <==> !BitSet(flags, DIS) && forall v :: v in vs ==> Permits(v)
    ensures !BitSet(FlagsAfter(flags, vs), DIS) ==>
              (BitSet(FlagsAfter(flags, vs), k) <==> BitSet(flags, k) || exists v :: v in vs && Restricts(v, k))
    decreases |vs|
  {
    hide Bit, BitSet, Step, Permits, Restricts;
    if vs != [] {
      var n := |vs| - 1;
      var front, v := vs[..n], vs[n];
      assert forall u :: u in vs <==> u in front || u == v;
      FlagsAfterMeans(flags, front, k);
      StepRestricts(FlagsAfter(flags, front), v, k);
    }
  }

  lemma StepRestricts(flags: bv8, v: Verdict, k: nat)
    ensures !BitSet(Step(flags, v), DIS) <==> !BitSet(flags, DIS) && Permits(v)
    ensures !BitSet(Step(flags, v), DIS) ==> (BitSet(Step(flags, v), k) <==> BitSet(flags, k) || Restricts(v, k))
  {
    hide Bit, BitSet;
    DisBit();
    if v.Allow? {
      OrBits(flags, v.flags, DIS);
      OrBits(flags, v.flags, k);
    }
  }

  lemma {:induction false} VerdictMembers(db: RegDb, disFlags: bv8, reqs: seq<Req>, band: Band, num: u8)
    ensures forall v :: v in Verdicts(db, disFlags, reqs, band, num) <==>
              exists r :: r in reqs && r.applied && v == Judge(db, disFlags, r, band, num)
    decreases |reqs|
  {
    hide Judge;
    if reqs != [] {
      var n := |reqs| - 1;
      VerdictMembers(db, disFlags, reqs[..n], band, num);
      assert reqs == reqs[..n] + [reqs[n]] && reqs[n] in reqs;
      forall r | r in reqs ensures r in reqs[..n] || r == reqs[n] {
      }
    }
  }

  /**
   The intersection: after the requests are applied a channel is enabled exactly if it is not excluded
   and every applied request with a valid plan permits it, and its flags are those of all of them.
   */
  lemma Intersection(conf: Conf, db: RegDb, reqs: seq<Req>, band: Band, num: u8, k: nat)
    ensures !BitSet(RegFlags(conf, db, reqs, band, num), DIS) <==>
              && !Excluded(conf, band, num)
              && forall r :: r in reqs && r.applied ==> Permits(Judge(db, conf.disFlags, r, band, num))
    ensures !BitSet(RegFlags(conf, db, reqs, band, num), DIS) ==>
              (BitSet(RegFlags(conf, db, reqs, band, num), k) <==>
                 exists r :: r in reqs && r.applied && Restricts(Judge(db, conf.disFlags, r, band, num), k))
  {
    hide Bit, BitSet, Judge, Permits, Restricts, Verdicts, FlagsAfter, Excluded;
    DisBit();
    VerdictMembers(db, conf.disFlags, reqs, band, num);
    var vs := Verdicts(db, conf.disFlags, reqs, band, num);
    FlagsAfterMeans(if Excluded(conf, band, num) then Bit(DIS) else 0, vs, k);
    forall r | r in reqs && r.applied ensures Judge(db, conf.disFlags, r, band, num) in vs {
    }
  }

  /** Every applied request of the one list is in the other. */
  predicate AppliedAmong(reqs: seq<Req>, reqs': seq<Req>) {
    forall r :: r in reqs && r.applied ==> r in reqs'
  }

  /** More applied requests: no channel is gained and no restriction lost. */
  lemma MoreRequests(conf: Conf, db: RegDb, reqs: seq<Req>, reqs': seq<Req>, band: Band, num: u8, k: nat)
    requires AppliedAmong(reqs, reqs') && !BitSet(RegFlags(conf, db, reqs', band, num), DIS)
    ensures !BitSet(RegFlags(conf, db, reqs, band, num), DIS)
    ensures BitSet(RegFlags(conf, db, reqs, band, num), k) ==> BitSet(RegFlags(conf, db, reqs', band, num), k)
  {
    hide BitSet, Judge, Permits, Restricts, RegFlags, Excluded;
    Intersection(conf, db, reqs, band, num, k);
    Intersection(conf, db, reqs', band, num, k);
  }

  /** Order and repetition of the requests change neither which channels are enabled nor the flags of those. */
  lemma OrderFree(conf: Conf, db: RegDb, reqs: seq<Req>, reqs': seq<Req>, band: Band, num: u8)
    requires AppliedAmong(reqs, reqs') && AppliedAmong(reqs', reqs)
    ensures var f, f' := RegFlags(conf, db, reqs, band, num), RegFlags(conf, db, reqs', band, num);
            (BitSet(f, DIS) <==> BitSet(f', DIS)) && (!BitSet(f, DIS) ==> f == f')
  {
    hide BitSet, RegFlags, AppliedAmong;
    var f, f' := RegFlags(conf, db, reqs, band, num), RegFlags(conf, db, reqs', band, num);
    if !BitSet(f, DIS) || !BitSet(f', DIS) {
      forall k: nat | k < 8 ensures BitSet(f, k) <==> BitSet(f', k) {
        if !BitSet(f, DIS) {
          MoreRequests(conf, db, reqs', reqs, band, num, k);
          MoreRequests(conf, db, reqs, reqs', band, num, k);
        } else {
          MoreRequests(conf, db, reqs, reqs', band, num, k);
          MoreRequests(conf, db, reqs', reqs, band, num, k);
        }
      }
      SameBits(f, f');
    }
  }

  /** Both databases of the driver know no other flags of a listed channel than these two. */
  predicate WellFormedDb(db: RegDb) {
    && (forall code, num :: db.ch(code, num).Some? ==> PassiveOrDfs(db.ch(code, num).value))
    && (forall code, num :: db.ch6g(code, num).Some? ==> PassiveOrDfs(db.ch6g(code, num).value))
  }

  predicate PassiveOrDfs(flags: bv8) {
    flags in {0, Bit(NO_IR), Bit(DFS), Bit(NO_IR) | Bit(DFS)}
  }

  lemma {:induction false} DisabledIsBare(flags: bv8, vs: seq<Verdict>)
    requires BitSet(flags, DIS) ==> flags == Bit(DIS)
    requires forall v :: v in vs && v.Allow? ==> !BitSet(v.flags, DIS)
    ensures BitSet(FlagsAfter(flags, vs), DIS) ==> FlagsAfter(flags, vs) == Bit(DIS)
    decreases |vs|
  {
    hide Bit, BitSet;
    if vs != [] {
      var n := |vs| - 1;
      assert vs[n] in vs && forall v :: v in vs[..n] ==> v in vs;
      DisabledIsBare(flags, vs[..n]);
      if vs[n].Allow? {
        OrBits(FlagsAfter(flags, vs[..n]), vs[n].flags, DIS);
      }
    }
  }

  /** So no request allows a channel and marks it disabled as well. */
  lemma JudgeIsClean(db: RegDb, disFlags: bv8, r: Req, band: Band, num: u8)
    requires WellFormedDb(db)
    ensures var v := Judge(db, disFlags, r, band, num); v.Allow? ==> !BitSet(v.flags, DIS)
  {
    hide Meets;
    if r.src == REGD_SRC_RTK_PRIV && Found(db, r, band, num).Some? {
      assert PassiveOrDfs(Found(db, r, band, num).value);
    }
  }

  /** Nothing at all depends on order or repetition then, not even the flags of disabled channels. */
  lemma OrderFreeFlags(conf: Conf, db: RegDb, reqs: seq<Req>, reqs': seq<Req>, band: Band, num: u8)
    requires WellFormedDb(db) && AppliedAmong(reqs, reqs') && AppliedAmong(reqs', reqs)
    ensures RegFlags(conf, db, reqs, band, num) == RegFlags(conf, db, reqs', band, num)
  {
    hide Bit, BitSet, Judge, Verdicts, FlagsAfter, Excluded, AppliedAmong, WellFormedDb;
    DisBit();
    OrderFree(conf, db, reqs, reqs', band, num);
    forall r ensures var v := Judge(db, conf.disFlags, r, band, num); v.Allow? ==> !BitSet(v.flags, DIS) {
      JudgeIsClean(db, conf.disFlags, r, band, num);
    }
    VerdictMembers(db, conf.disFlags, reqs, band, num);
    VerdictMembers(db, conf.disFlags, reqs', band, num);
    var start := if Excluded(conf, band, num) then Bit(DIS) else 0;
    DisabledIsBare(start, Verdicts(db, conf.disFlags, reqs, band, num));
    DisabledIsBare(start, Verdicts(db, conf.disFlags, reqs', band, num));
  }

  // ----- which table the 6 GHz codes are checked against -----

  /** The flags of a 6 GHz channel if its codes were checked against their own table. */
  function Meant(conf: Conf, db: RegDb, reqs: seq<Req>, num: u8): bv8 {
    RegFlags(conf, db.(valid := db.valid6g), reqs, Band6G, num)
  }

  predicate SameTable(db: RegDb, r: Req) {
    r.src == REGD_SRC_RTK_PRIV ==> db.valid(r.plan.domain6g) == db.valid6g(r.plan.domain6g)
  }

  lemma {:induction false} SameVerdicts(db: RegDb, disFlags: bv8, reqs: seq<Req>, num: u8)
    requires forall r :: r in reqs && r.applied ==> SameTable(db, r)
    ensures Verdicts(db, disFlags, reqs, Band6G, num) ==
              Verdicts(db.(valid := db.valid6g), disFlags, reqs, Band6G, num)
    decreases |reqs|
  {
    hide Meets, BitSet;
    if reqs != [] {
      var n := |reqs| - 1;
      assert reqs[n] in reqs && forall r :: r in reqs[..n] ==> r in reqs;
      SameVerdicts(db, disFlags, reqs[..n], num);
    }
  }

  lemma {:induction false} StaysDisabled(flags: bv8, vs: seq<Verdict>)
    requires BitSet(flags, DIS)
    ensures FlagsAfter(flags, vs) == flags
    decreases |vs|
  {
    hide BitSet;
    if vs != [] {
      StaysDisabled(flags, vs[..|vs| - 1]);
    }
  }

  /** A request with a code that only one of the tables has makes the difference if just that plan lacks the channel. */
  lemma TablesDiffer(conf: Conf, db: RegDb, reqs: seq<Req>, r: Req, num: u8)
    requires !Excluded(conf, Band6G, num) && r in reqs && r.applied && !SameTable(db, r)
    requires forall code: u8 :: db.ch6g(code, num) == if code == r.plan.domain6g then None else Some(0)
    requires db.os(Band6G, num) == 0
    ensures RegFlags(conf, db, reqs, Band6G, num) != Meant(conf, db, reqs, num)
  {
    hide Bit, BitSet, RegFlags, Excluded;
    var meant := db.(valid := db.valid6g);
    DisBit();
    Intersection(conf, db, reqs, Band6G, num, DIS);
    Intersection(conf, meant, reqs, Band6G, num, DIS);
    assert Permits(Judge(db, conf.disFlags, r, Band6G, num)) == !db.valid(r.plan.domain6g);
    assert Permits(Judge(meant, conf.disFlags, r, Band6G, num)) == !db.valid6g(r.plan.domain6g);
    forall q | q in reqs && q.applied && !(q.src == REGD_SRC_RTK_PRIV && q.plan.domain6g == r.plan.domain6g)
      ensures Permits(Judge(db, conf.disFlags, q, Band6G, num)) && Permits(Judge(meant, conf.disFlags, q, Band6G, num))
    {
    }
  }

  /**
   Whatever the plans list and the OS says, a 6 GHz channel gets the flags it is meant to get: exactly if
   it is excluded anyway, or the code of every applied request is in both tables or in neither.
   */
  lemma SixGigExactly(conf: Conf, db: RegDb, reqs: seq<Req>, num: u8)
    ensures (forall ch6g, os ::
               RegFlags(conf, db.(ch6g := ch6g, os := os), reqs, Band6G, num) ==
                 Meant(conf, db.(ch6g := ch6g, os := os), reqs, num))
        <==> Excluded(conf, Band6G, num) || forall r :: r in reqs && r.applied ==> SameTable(db, r)
  {
    hide Bit, BitSet, Excluded, Judge;
    DisBit();
    if Excluded(conf, Band6G, num) || forall r :: r in reqs && r.applied ==> SameTable(db, r) {
      forall ch6g, os
        ensures var now := db.(ch6g := ch6g, os := os);
                RegFlags(conf, now, reqs, Band6G, num) == Meant(conf, now, reqs, num)
      {
        AsMeant(conf, db.(ch6g := ch6g, os := os), reqs, num);
      }
    } else {
      var r :| r in reqs && r.applied && !SameTable(db, r);
      var ch6g: (u8, u8) -> Option<bv8> := (code: u8, n: u8) => if code == r.plan.domain6g then None else Some(0);
      var os: (Band, u8) -> bv8 := (b: Band, n: u8) => 0;
      TablesDiffer(conf, db.(ch6g := ch6g, os := os), reqs, r, num);
    }
  }

  lemma AsMeant(conf: Conf, db: RegDb, reqs: seq<Req>, num: u8)
    requires Excluded(conf, Band6G, num) || forall r :: r in reqs && r.applied ==> SameTable(db, r)
    ensures RegFlags(conf, db, reqs, Band6G, num) == Meant(conf, db, reqs, num)
  {
    hide Bit, BitSet, Excluded, Judge;
    DisBit();
    var meant := db.(valid := db.valid6g);
    if Excluded(conf, Band6G, num) {
      StaysDisabled(Bit(DIS), Verdicts(db, conf.disFlags, reqs, Band6G, num));
      StaysDisabled(Bit(DIS), Verdicts(meant, conf.disFlags, reqs, Band6G, num));
    } else {
      SameVerdicts(db, conf.disFlags, reqs, num);
    }
  }

  /**
   If every code of the 6G table is in the other one too, as in both databases of the driver, no 6 GHz
   plan is lost: codes of the 6G table give what is meant, others can only restrict more.
   */
  lemma SixGigInDriver(conf: Conf, db: RegDb, reqs: seq<Req>, num: u8)
    requires forall code :: db.valid6g(code) ==> db.valid(code)
    ensures (forall r :: r in reqs && r.applied && r.src == REGD_SRC_RTK_PRIV ==> db.valid6g(r.plan.domain6g)) ==>
              RegFlags(conf, db, reqs, Band6G, num) == Meant(conf, db, reqs, num)
    ensures BitSet(Meant(conf, db, reqs, num), DIS) ==> BitSet(RegFlags(conf, db, reqs, Band6G, num), DIS)
  {
    hide Bit, BitSet, Excluded, RegFlags, Meets;
    if forall r :: r in reqs && r.applied && r.src == REGD_SRC_RTK_PRIV ==> db.valid6g(r.plan.domain6g) {
      AsMeant(conf, db, reqs, num);
    }
    var meant := db.(valid := db.valid6g);
    Intersection(conf, db, reqs, Band6G, num, DIS);
    Intersection(conf, meant, reqs, Band6G, num, DIS);
    forall r | r in reqs && r.applied && Permits(Judge(db, conf.disFlags, r, Band6G, num))
      ensures Permits(Judge(meant, conf.disFlags, r, Band6G, num))
    {
    }
  }

  /** Tables without channels; code 0x7F is missing in the 2G/5G table. */
  function EmptyDb(): RegDb {
    RegDb(code => code != 0x7F, code => true, (code, num) => None, (code, num) => None, (band, num) => 0)
  }

  /** With a 6 GHz code that is not in the other table, a plan that lists no channel leaves this one enabled. */
  lemma SixGigEscapes()
    ensures var db := EmptyDb();
            var conf := Conf(0, true, [], [], "00");
            var r := Req(REGD_SRC_RTK_PRIV, SET_BY_INIT, 1, true, Plan("00", 0, 0x7F, [0, 0, 0], 0, 0));
            && db.valid6g(0x7F) && Judge(db.(valid := db.valid6g), 0, r, Band6G, 5) == Deny
            && !BitSet(RegFlags(conf, db, [r], Band6G, 5), DIS) && BitSet(Meant(conf, db, [r], 5), DIS)
  {
    hide Bit, BitSet, RegFlags;
    var db := EmptyDb();
    var conf := Conf(0, true, [], [], "00");
    var r := Req(REGD_SRC_RTK_PRIV, SET_BY_INIT, 1, true, Plan("00", 0, 0x7F, [0, 0, 0], 0, 0));
    Intersection(conf, db, [r], Band6G, 5, DIS);
    Intersection(conf, db.(valid := db.valid6g), [r], Band6G, 5, DIS);
    assert r in [r];
  }

  // ----- beacon hints -----

  /** c' is at least as restricted as c. */
  predicate NoLaxer(c: Info, c': Info) {
    && c.band == c'.band && c.num == c'.num
    && (!Disabled(c') ==> !Disabled(c) && forall k: nat :: k < 8 && BitSet(c.flags, k) ==> BitSet(c'.flags, k))
  }

  lemma ClearBit(x: bv8, j: nat, k: nat)
    requires j < 8 && k < 8
    ensures BitSet(x & !Bit(j), k) <==> BitSet(x, k) && k != j
  {
  }

  /** The beacon hint takes away NO_IR from an enabled channel and nothing else. */
  lemma HintClears(conf: Conf, db: RegDb, reqs: seq<Req>, c: Info, k: nat)
    requires k < 8
    ensures var f, r := RegFlags(conf, db, reqs, c.band, c.num), Final(conf, db, reqs, c);
            && (Disabled(r) <==> BitSet(f, DIS)) && r.regNoIr == BitSet(f, NO_IR)
            && (BitSet(r.flags, k) <==>
                  BitSet(f, k) && !(k == NO_IR && !BitSet(f, DIS) && c.bcnHint && HintRule(conf.alpha2)
                                    && AllowsHint(c.band, c.num, f)))
  {
    hide Bit, BitSet, RegFlags;
    var f := RegFlags(conf, db, reqs, c.band, c.num);
    ClearBit(f, NO_IR, k);
    ClearBit(f, NO_IR, DIS);
  }

  // ----- the final flags spelt out -----

  lemma Masks(x: bv8)
    ensures BitSet(x, DIS) <==> x & 0x01 != 0
    ensures BitSet(x, NO_IR) <==> x & 0x02 != 0
    ensures BitSet(x, DFS) <==> x & 0x04 != 0
    ensures BitSet(x, NO_HT40U) <==> x & 0x08 != 0
    ensures BitSet(x, NO_HT40L) <==> x & 0x10 != 0
    ensures BitSet(x, NO_80MHZ) <==> x & 0x20 != 0
    ensures BitSet(x, NO_160MHZ) <==> x & 0x40 != 0
  {
  }

  lemma {:induction false} ExcludedMeans(l: seq<u8>, ch: u8)
    ensures IsExcluded(l, ch) <==> exists i :: 0 <= i < |l| && l[i] == ch && forall j :: 0 <= j <= i ==> l[j] != 0
  {
    if l != [] {
      var rest := l[1..];
      ExcludedMeans(rest, ch);
      assert forall i :: 0 < i < |l| ==> l[i] == rest[i - 1];
      if IsExcluded(rest, ch) && l[0] != 0 {
        var i :| 0 <= i < |rest| && rest[i] == ch && forall j :: 0 <= j <= i ==> rest[j] != 0;
        assert l[i + 1] == ch;
      }
      if i :| 0 < i < |l| && l[i] == ch && forall j :: 0 <= j <= i ==> l[j] != 0 {
        assert rest[i - 1] == ch && forall j :: 0 <= j <= i - 1 ==> rest[j] == l[j + 1];
      }
    }
  }

  predicate Clear(flags: bv8, mask: bv8) {
    flags & mask == 0
  }

  /** A Realtek request lets a channel be used: its plan is unknown or lists the channel, without a forbidden flag. */
  predicate Lists(db: RegDb, r: Req, band: Band, num: u8, forbidden: bv8) {
    var f := if band == Band6G then db.ch6g(r.plan.domain6g, num) else db.ch(r.plan.domain, num);
    && r.src == REGD_SRC_RTK_PRIV
    && (db.valid(if band == Band6G then r.plan.domain6g else r.plan.domain) ==> f.Some? && Clear(f.value, forbidden))
  }

  /** So does a request of the OS. */
  predicate OsLists(db: RegDb, r: Req, band: Band, num: u8, forbidden: bv8) {
    r.src == REGD_SRC_OS && Clear(db.os(band, num), forbidden)
  }

  /** What a request that lets the channel be used says of it carries this flag. */
  predicate Flags(db: RegDb, r: Req, band: Band, num: u8, mask: bv8) {
    if r.src == REGD_SRC_OS then !Clear(db.os(band, num), mask)
    else db.valid(if band == Band6G then r.plan.domain6g else r.plan.domain) && !Lists(db, r, band, num, mask)
  }

  lemma Forbidden(f: bv8, disFlags: bv8)
    ensures Clear(f, disFlags | 0x01) <==> !Meets(f, disFlags) && !BitSet(f, DIS)
  {
  }

  lemma PermitsMeans(db: RegDb, disFlags: bv8, r: Req, band: Band, num: u8)
    ensures Permits(Judge(db, disFlags, r, band, num)) <==>
              Lists(db, r, band, num, disFlags | 0x01) || OsLists(db, r, band, num, disFlags | 0x01)
  {
    hide Bit, BitSet, Meets, Clear;
    var f := if r.src == REGD_SRC_OS then Some(db.os(band, num)) else Found(db, r, band, num);
    if f.Some? {
      Forbidden(f.value, disFlags);
    }
  }

  lemma RestrictsMeans(db: RegDb, disFlags: bv8, r: Req, band: Band, num: u8, k: nat, mask: bv8)
    requires forall x :: BitSet(x, k) <==> !Clear(x, mask)
    requires Permits(Judge(db, disFlags, r, band, num))
    ensures Restricts(Judge(db, disFlags, r, band, num), k) <==> Flags(db, r, band, num, mask)
  {
    hide Bit, BitSet, Meets, Clear;
  }

  /**
   A channel ends up enabled exactly if it is not of 5 GHz with 11a off, its number is not before the first
   zero of its band's list, and all applied requests let it be used, none with DIS (0x01) or a flag of disFlags.
   */
  lemma EnabledExactly(conf: Conf, db: RegDb, reqs: seq<Req>, c: Info)
    ensures var excl := if c.band == Band6G then conf.excl6g else conf.excl;
            var forbidden := conf.disFlags | 0x01;
            Final(conf, db, reqs, c).flags & 0x01 == 0 <==>
              && (c.band == Band5G ==> conf.en11a)
              && !(exists i :: 0 <= i < |excl| && excl[i] == c.num && forall j :: 0 <= j <= i ==> excl[j] != 0)
              && (forall r :: r in reqs && r.applied ==>
                    Lists(db, r, c.band, c.num, forbidden) || OsLists(db, r, c.band, c.num, forbidden))
  {
    hide Bit, BitSet, RegFlags, Judge, Permits, Lists, IsExcluded, Restricts;
    ExcludedMeans(if c.band == Band6G then conf.excl6g else conf.excl, c.num);
    HintClears(conf, db, reqs, c, DIS);
    Masks(Final(conf, db, reqs, c).flags);
    Intersection(conf, db, reqs, c.band, c.num, DIS);
    forall r {
      PermitsMeans(db, conf.disFlags, r, c.band, c.num);
    }
  }

  /**
   An enabled channel is DFS (0x04) exactly if some applied request says so. It is passive (NO_IR, 0x02)
   exactly if some request says so and no beacon hint counts, which is under no particular country, and
   neither on channels 1 to 11 of 2.4 GHz nor on DFS channels.
   */
  lemma PassiveExactly(conf: Conf, db: RegDb, reqs: seq<Req>, c: Info)
    requires Final(conf, db, reqs, c).flags & 0x01 == 0
    ensures var r := Final(conf, db, reqs, c);
            var dfs := exists q :: q in reqs && q.applied && Flags(db, q, c.band, c.num, 0x04);
            var noIr := exists q :: q in reqs && q.applied && Flags(db, q, c.band, c.num, 0x02);
            var hinted := c.bcnHint && conf.alpha2 in {"00", "99", "98"} && !(c.band == Band24G && c.num <= 11) && !dfs;
            && (r.flags & 0x04 != 0 <==> dfs)
            && (r.flags & 0x02 != 0 <==> noIr && !hinted)
            && (r.regNoIr <==> noIr)
  {
    hide Bit, BitSet, RegFlags, Judge, Permits, Flags, Restricts, Final;
    var f, r := RegFlags(conf, db, reqs, c.band, c.num), Final(conf, db, reqs, c);
    Masks(r.flags);
    HintClears(conf, db, reqs, c, DIS);
    HintClears(conf, db, reqs, c, NO_IR);
    HintClears(conf, db, reqs, c, DFS);
    Intersection(conf, db, reqs, c.band, c.num, NO_IR);
    Intersection(conf, db, reqs, c.band, c.num, DFS);
    forall x ensures BitSet(x, NO_IR) <==> !Clear(x, 0x02)
             ensures BitSet(x, DFS) <==> !Clear(x, 0x04)
    {
      Masks(x);
    }
    forall q | q in reqs && q.applied
      ensures Restricts(Judge(db, conf.disFlags, q, c.band, c.num), NO_IR) <==> Flags(db, q, c.band, c.num, 0x02)
      ensures Restricts(Judge(db, conf.disFlags, q, c.band, c.num), DFS) <==> Flags(db, q, c.band, c.num, 0x04)
    {
      RestrictsMeans(db, conf.disFlags, q, c.band, c.num, NO_IR, 0x02);
      RestrictsMeans(db, conf.disFlags, q, c.band, c.num, DFS, 0x04);
    }
  }

  /** The country of the status that the requests marked as applied add up to; without any it stays as it was. */
  function StatusAlpha2(was: Alpha2, reqs: seq<Req>): Alpha2 {
    if InForce(reqs) == [] then was else Summary(InForce(reqs)).alpha2
  }

  /** What rtw_set_chplan_hdl makes of a channel: the status is updated first, and decides about beacon hints. */
  function Updated(conf: Conf, db: RegDb, reqs: seq<Req>, c: Info): Info {
    Final(conf.(alpha2 := StatusAlpha2(conf.alpha2, reqs)), db, reqs, c)
  }

  /** The other requests turn the hint rule on, and the channel's beacon hint then counts. */
  predicate HintTurnsOn(conf: Conf, db: RegDb, reqs: seq<Req>, reqs': seq<Req>, c: Info) {
    var f, f' := RegFlags(conf, db, reqs, c.band, c.num), RegFlags(conf, db, reqs', c.band, c.num);
    && !HintRule(StatusAlpha2(conf.alpha2, reqs)) && HintRule(StatusAlpha2(conf.alpha2, reqs'))
    && c.bcnHint && BitSet(f, NO_IR) && !BitSet(f', DIS) && AllowsHint(c.band, c.num, f')
  }

  lemma UpdatedMeans(conf: Conf, db: RegDb, reqs: seq<Req>, c: Info, k: nat)
    requires k < 8
    ensures var f, r := RegFlags(conf, db, reqs, c.band, c.num), Updated(conf, db, reqs, c);
            && r.band == c.band && r.num == c.num
            && (Disabled(r) <==> BitSet(f, DIS))
            && (BitSet(r.flags, k) <==>
                  BitSet(f, k) && !(k == NO_IR && !BitSet(f, DIS) && c.bcnHint && AllowsHint(c.band, c.num, f)
                                    && HintRule(StatusAlpha2(conf.alpha2, reqs))))
  {
    hide Bit, BitSet, Verdicts, FlagsAfter, IsExcluded, AllowsHint, StatusAlpha2, Final;
    var now := conf.(alpha2 := StatusAlpha2(conf.alpha2, reqs));
    HintClears(now, db, reqs, c, k);
    SameChannel(now, db, reqs, c);
  }

  /** More applied requests leave a channel at least as restricted exactly if they do not turn its hint on. */
  lemma NoLaxerExactly(conf: Conf, db: RegDb, reqs: seq<Req>, reqs': seq<Req>, c: Info)
    requires AppliedAmong(reqs, reqs')
    ensures NoLaxer(Updated(conf, db, reqs, c), Updated(conf, db, reqs', c)) <==> !HintTurnsOn(conf, db, reqs, reqs', c)
  {
    hide Bit, BitSet, RegFlags, AppliedAmong, Updated, HintRule, StatusAlpha2;
    var a, b := Updated(conf, db, reqs, c), Updated(conf, db, reqs', c);
    UpdatedMeans(conf, db, reqs, c, NO_IR);
    UpdatedMeans(conf, db, reqs', c, NO_IR);
    if !Disabled(b) {
      MoreRequests(conf, db, reqs, reqs', c.band, c.num, DFS);
      MoreRequests(conf, db, reqs, reqs', c.band, c.num, NO_IR);
      forall k: nat | k < 8 && k != NO_IR && BitSet(a.flags, k) ensures BitSet(b.flags, k) {
        UpdatedMeans(conf, db, reqs, c, k);
        UpdatedMeans(conf, db, reqs', c, k);
        MoreRequests(conf, db, reqs, reqs', c.band, c.num, k);
      }
    }
  }

  lemma SameChannel(conf: Conf, db: RegDb, reqs: seq<Req>, c: Info)
    ensures var r := Final(conf, db, reqs, c); r.band == c.band && r.num == c.num && r.bcnHint == c.bcnHint
  {
  }

  // ----- bandwidth validity -----

  predicate Usable(c: Info, band: Band, num: u8) {
    c.band == band && c.num == num && !Disabled(c)
  }

  /** rtw_chset_search_bch: the first enabled entry of that channel, |chs| for -1. */
  function Search(chs: seq<Info>, band: Band, num: u8): (k: nat)
    ensures k <= |chs| && (num == 0 ==> k == |chs|)
    ensures k < |chs| ==> Usable(chs[k], band, num)
    ensures num != 0 ==> forall j :: 0 <= j < k ==> !Usable(chs[j], band, num)
  {
    if chs == [] then 0
    else if num != 0 && Usable(chs[0], band, num) then 0
    else 1 + Search(chs[1..], band, num)
  }

  lemma {:induction false} SearchIs(chs: seq<Info>, band: Band, num: u8, k: nat)
    requires k <= |chs| && forall j :: 0 <= j < k ==> !Usable(chs[j], band, num)
    requires num != 0 && (k < |chs| ==> Usable(chs[k], band, num))
    ensures Search(chs, band, num) == k
  {
  }

  /** What a caller asks for: primary channel, width and which passive channels it puts up with. */
  datatype Query = Query(band: Band, ch: u8, bw: nat, allowPrimaryPassive: bool, allowPassive: bool)

  /** May constituent channel i of the bandwidth be this one? */
  predicate Fits(c: Info, q: Query, i: nat) {
    && (BitSet(c.flags, NO_IR) ==> q.allowPassive && (q.allowPrimaryPassive || c.num != q.ch))
    && (q.bw >= CHANNEL_WIDTH_40 ==> !BitSet(c.flags, if i % 2 == 0 then NO_HT40U else NO_HT40L))
    && (q.bw >= CHANNEL_WIDTH_80 ==> !BitSet(c.flags, NO_80MHZ))
    && (q.bw >= CHANNEL_WIDTH_160 ==> !BitSet(c.flags, NO_160MHZ))
  }

  predicate OpChOk(chs: seq<Info>, q: Query, opChs: seq<u8>, i: nat)
    requires i < |opChs|
  {
    var k := Search(chs, q.band, opChs[i]);
    k < |chs| && Fits(chs[k], q, i)
  }

  /** _rtw_chset_is_bchbw_valid; opChs are the constituent channels, None if there is no such channel and width. */
  predicate BchbwValid(chs: seq<Info>, q: Query, opChs: Option<seq<u8>>) {
    opChs.Some? && opChs.value != [] && forall i :: 0 <= i < |opChs.value| ==> OpChOk(chs, q, opChs.value, i)
  }

  /** The first enabled entry of a channel. */
  predicate FirstOpen(chs: seq<Info>, band: Band, num: u8, k: int) {
    && 0 <= k < |chs| && chs[k].band == band && chs[k].num == num && chs[k].flags & 0x01 == 0
    && forall j :: 0 <= j < k ==> !(chs[j].band == band && chs[j].num == num && chs[j].flags & 0x01 == 0)
  }

  lemma SearchMeans(chs: seq<Info>, band: Band, num: u8, k: int)
    ensures num != 0 && FirstOpen(chs, band, num, k) <==> k == Search(chs, band, num) < |chs|
  {
    hide BitSet, Search;
    forall j | 0 <= j < |chs| ensures Usable(chs[j], band, num) <==>
                                      chs[j].band == band && chs[j].num == num && chs[j].flags & 0x01 == 0
    {
      Masks(chs[j].flags);
    }
    if num != 0 && FirstOpen(chs, band, num, k) {
      SearchIs(chs, band, num, k);
    }
  }

  /**
   A channel and bandwidth is valid exactly if it has constituent channels and each is enabled, not passive
   (0x02) unless the caller puts up with that, and at 40, 80 and 160 MHz lacks the flag against the width:
   0x08 for the channels at even places and 0x10 for those at odd ones, 0x20, 0x40.
   */
  lemma ValidExactly(chs: seq<Info>, q: Query, ops: seq<u8>)
    ensures !BchbwValid(chs, q, None)
    ensures BchbwValid(chs, q, Some(ops)) <==>
              && ops != []
              && forall i :: 0 <= i < |ops| ==>
                   && ops[i] != 0
                   && exists k :: FirstOpen(chs, q.band, ops[i], k) &&
                        var flags := chs[k].flags;
                        && (flags & 0x02 != 0 ==> q.allowPassive && (q.allowPrimaryPassive || ops[i] != q.ch))
                        && (q.bw >= 1 ==> flags & (if i % 2 == 0 then 0x08 else 0x10) == 0)
                        && (q.bw >= 2 ==> flags & 0x20 == 0)
                        && (q.bw >= 3 ==> flags & 0x40 == 0)
  {
    hide BitSet, Search, OpChOk;
    forall i | 0 <= i < |ops| {
      OpChOkMeans(chs, q, ops, i);
    }
  }

  lemma OpChOkMeans(chs: seq<Info>, q: Query, ops: seq<u8>, i: nat)
    requires i < |ops|
    ensures OpChOk(chs, q, ops, i) <==>
              && ops[i] != 0
              && exists k :: FirstOpen(chs, q.band, ops[i], k) &&
                   var flags := chs[k].flags;
                   && (flags & 0x02 != 0 ==> q.allowPassive && (q.allowPrimaryPassive || ops[i] != q.ch))
                   && (q.bw >= 1 ==> flags & (if i % 2 == 0 then 0x08 else 0x10) == 0)
                   && (q.bw >= 2 ==> flags & 0x20 == 0)
                   && (q.bw >= 3 ==> flags & 0x40 == 0)
  {
    hide Bit, BitSet, Search;
    var k := Search(chs, q.band, ops[i]);
    forall j ensures ops[i] != 0 && FirstOpen(chs, q.band, ops[i], j) <==> j == k < |chs| {
      SearchMeans(chs, q.band, ops[i], j);
    }
    if k < |chs| {
      Masks(chs[k].flags);
      assert Usable(chs[k], q.band, ops[i]);
    }
  }

  function UpdatedAll(conf: Conf, db: RegDb, reqs: seq<Req>, chs: seq<Info>): (r: seq<Info>)
    ensures |r| == |chs| && forall i :: 0 <= i < |r| ==> r[i] == Updated(conf, db, reqs, chs[i])
  {
    if chs == [] then [] else [Updated(conf, db, reqs, chs[0])] + UpdatedAll(conf, db, reqs, chs[1..])
  }

  /** Entries of one channel are enabled or disabled together, and with fewer requests if with more. */
  lemma EnabledTogether(conf: Conf, db: RegDb, reqs: seq<Req>, reqs': seq<Req>, c: Info, d: Info)
    requires AppliedAmong(reqs, reqs') && c.band == d.band && c.num == d.num
    ensures Disabled(Updated(conf, db, reqs', c)) <==> Disabled(Updated(conf, db, reqs', d))
    ensures Disabled(Updated(conf, db, reqs, c)) ==> Disabled(Updated(conf, db, reqs', d))
  {
    hide BitSet, RegFlags, Updated, AppliedAmong;
    UpdatedMeans(conf, db, reqs, c, DIS);
    UpdatedMeans(conf, db, reqs', c, DIS);
    UpdatedMeans(conf, db, reqs', d, DIS);
    if !BitSet(RegFlags(conf, db, reqs', c.band, c.num), DIS) {
      MoreRequests(conf, db, reqs, reqs', c.band, c.num, DIS);
    }
  }

  lemma FitsIfNoLaxer(c: Info, c': Info, q: Query, i: nat)
    requires NoLaxer(c, c') && !Disabled(c') && Fits(c', q, i)
    ensures Fits(c, q, i)
  {
    hide Bit, BitSet;
  }

  /** A search finds the same entry with fewer requests, if it finds one with more. */
  lemma SearchSame(conf: Conf, db: RegDb, reqs: seq<Req>, reqs': seq<Req>, chs: seq<Info>, band: Band, num: u8)
    requires AppliedAmong(reqs, reqs')
    ensures var k := Search(UpdatedAll(conf, db, reqs', chs), band, num);
            k < |chs| ==> Search(UpdatedAll(conf, db, reqs, chs), band, num) == k
  {
    hide UpdatedAll, Updated, AppliedAmong, BitSet, Search;
    var a, b := UpdatedAll(conf, db, reqs, chs), UpdatedAll(conf, db, reqs', chs);
    var k := Search(b, band, num);
    if k < |chs| {
      forall j | 0 <= j <= k ensures Usable(a[j], band, num) <==> j == k {
        UpdatedMeans(conf, db, reqs, chs[j], DIS);
        UpdatedMeans(conf, db, reqs', chs[j], DIS);
        UpdatedMeans(conf, db, reqs', chs[k], DIS);
        if a[j].band == band && a[j].num == num {
          EnabledTogether(conf, db, reqs, reqs', chs[j], chs[k]);
        }
      }
      SearchIs(a, band, num, k);
    }
  }

  /** One query: valid with more requests, so valid with fewer unless a hint turned on. */
  lemma ValidStays(conf: Conf, db: RegDb, reqs: seq<Req>, reqs': seq<Req>, chs: seq<Info>,
                   q: Query, opChs: Option<seq<u8>>)
    requires AppliedAmong(reqs, reqs') && BchbwValid(UpdatedAll(conf, db, reqs', chs), q, opChs)
    requires !SomeHintTurnsOn(conf, db, reqs, reqs', chs)
    ensures BchbwValid(UpdatedAll(conf, db, reqs, chs), q, opChs)
  {
    hide UpdatedAll, Updated, AppliedAmong, HintTurnsOn, Search, Fits, BitSet;
    var a, b, ops := UpdatedAll(conf, db, reqs, chs), UpdatedAll(conf, db, reqs', chs), opChs.value;
    forall i | 0 <= i < |ops| ensures OpChOk(a, q, ops, i) {
      assert OpChOk(b, q, ops, i);
      var k := Search(b, q.band, ops[i]);
      SearchSame(conf, db, reqs, reqs', chs, q.band, ops[i]);
      NoLaxerExactly(conf, db, reqs, reqs', chs[k]);
      FitsIfNoLaxer(a[k], b[k], q, i);
    }
  }

  /** The hint of a channel's entry, the one that searches find, is turned on. */
  predicate SomeHintTurnsOn(conf: Conf, db: RegDb, reqs: seq<Req>, reqs': seq<Req>, chs: seq<Info>) {
    exists band, num ::
      var k := Search(UpdatedAll(conf, db, reqs', chs), band, num);
      k < |chs| && HintTurnsOn(conf, db, reqs, reqs', chs[k])
  }

  /** Then the channel by itself, asked for as an active one, becomes valid. */
  lemma BecomesValid(conf: Conf, db: RegDb, reqs: seq<Req>, reqs': seq<Req>, chs: seq<Info>, band: Band, num: u8)
    requires AppliedAmong(reqs, reqs')
    requires var k := Search(UpdatedAll(conf, db, reqs', chs), band, num);
             k < |chs| && HintTurnsOn(conf, db, reqs, reqs', chs[k])
    ensures var q, opChs := Query(band, num, 0, false, false), Some([num]);
            && BchbwValid(UpdatedAll(conf, db, reqs', chs), q, opChs)
            && !BchbwValid(UpdatedAll(conf, db, reqs, chs), q, opChs)
  {
    hide UpdatedAll, Updated, AppliedAmong, Search, BitSet, RegFlags, HintRule, StatusAlpha2, AllowsHint;
    var a, b := UpdatedAll(conf, db, reqs, chs), UpdatedAll(conf, db, reqs', chs);
    var q, k := Query(band, num, 0, false, false), Search(b, band, num);
    SearchSame(conf, db, reqs, reqs', chs, band, num);
    UpdatedMeans(conf, db, reqs, chs[k], NO_IR);
    UpdatedMeans(conf, db, reqs', chs[k], NO_IR);
    MoreRequests(conf, db, reqs, reqs', chs[k].band, chs[k].num, NO_IR);
    assert OpChOk(b, q, [num], 0) && !OpChOk(a, q, [num], 0);
  }

  /**
   Monotone validity: adding applied requests never makes an invalid channel and bandwidth valid, exactly
   if it does not turn on the beacon hint of any channel.
   */
  lemma MonotoneExactly(conf: Conf, db: RegDb, reqs: seq<Req>, reqs': seq<Req>, chs: seq<Info>)
    requires AppliedAmong(reqs, reqs')
    ensures (forall q, opChs :: BchbwValid(UpdatedAll(conf, db, reqs', chs), q, opChs) ==>
                                  BchbwValid(UpdatedAll(conf, db, reqs, chs), q, opChs))
        <==> !SomeHintTurnsOn(conf, db, reqs, reqs', chs)
  {
    hide UpdatedAll, AppliedAmong, HintTurnsOn, Search, BchbwValid;
    if SomeHintTurnsOn(conf, db, reqs, reqs', chs) {
      var band, num :| var k := Search(UpdatedAll(conf, db, reqs', chs), band, num);
                       k < |chs| && HintTurnsOn(conf, db, reqs, reqs', chs[k]);
      BecomesValid(conf, db, reqs, reqs', chs, band, num);
    } else {
      forall q, opChs | BchbwValid(UpdatedAll(conf, db, reqs', chs), q, opChs)
        ensures BchbwValid(UpdatedAll(conf, db, reqs, chs), q, opChs)
      {
        ValidStays(conf, db, reqs, reqs', chs, q, opChs);
      }
    }
  }

  /** In particular if they do not turn the hint rule on. */
  lemma MonotoneValidity(conf: Conf, db: RegDb, reqs: seq<Req>, reqs': seq<Req>, chs: seq<Info>,
                         q: Query, opChs: Option<seq<u8>>)
    requires AppliedAmong(reqs, reqs') && BchbwValid(UpdatedAll(conf, db, reqs', chs), q, opChs)
    requires HintRule(StatusAlpha2(conf.alpha2, reqs')) ==> HintRule(StatusAlpha2(conf.alpha2, reqs))
    ensures BchbwValid(UpdatedAll(conf, db, reqs, chs), q, opChs)
  {
    hide UpdatedAll, AppliedAmong, Search, BchbwValid, HintRule, RegFlags, BitSet;
    ValidStays(conf, db, reqs, reqs', chs, q, opChs);
  }

  const ANTARCTICA: u8 := 0x26
  const GERMANY: u8 := 0x5E
  const EDCCA_DEF: seq<u8> := [3, 3, 3]
  const TXPWR_LMT_DEF: u8 := 15

  /** The driver's plans for Antarctica and for Germany. */
  function AqReq(): Req {
    Req(REGD_SRC_RTK_PRIV, SET_BY_COUNTRY_IE, 1, true, Plan("AQ", ANTARCTICA, 0x00, EDCCA_DEF, TXPWR_LMT_DEF, 7))
  }

  function DeReq(): Req {
    Req(REGD_SRC_RTK_PRIV, SET_BY_COUNTRY_IE, 1, true, Plan("DE", GERMANY, 0x06, EDCCA_DEF, TXPWR_LMT_DEF, 7))
  }

  /** What both databases say of the two codes: channel 12 is passive in the one, free in the other. */
  predicate KnowsBoth(db: RegDb) {
    && db.valid(0x26) && db.ch(0x26, 12) == Some(0x02)
    && db.valid(0x5E) && db.ch(0x5E, 12) == Some(0x00)
  }

  /** A second country is added: the status becomes intersected, hints count, and the channel becomes valid. */
  lemma HintAppears(conf: Conf, db: RegDb)
    requires conf.disFlags == 0 && !Excluded(conf, Band24G, 12) && KnowsBoth(db)
    ensures var q, chs := Query(Band24G, 12, 0, false, false), [Info(Band24G, 12, 0, false, true)];
            && !BchbwValid(UpdatedAll(conf, db, [AqReq()], chs), q, Some([12]))
            && BchbwValid(UpdatedAll(conf, db, [AqReq(), DeReq()], chs), q, Some([12]))
  {
    hide RegFlags, Excluded, Updated, UpdatedAll, BchbwValid, Search;
    var one, two, c := [AqReq()], [AqReq(), DeReq()], Info(Band24G, 12, 0, false, true);
    HintRuleAppears(conf.alpha2);
    forall k: nat ensures var f := RegFlags(conf, db, one, Band24G, 12);
                          !BitSet(f, DIS) && (BitSet(f, k) <==> BitSet(Bit(NO_IR), k))
                  ensures var f := RegFlags(conf, db, two, Band24G, 12);
                          !BitSet(f, DIS) && (BitSet(f, k) <==> BitSet(Bit(NO_IR), k))
    {
      AqAndDe(conf, db, k);
    }
    var b := UpdatedAll(conf, db, two, [c]);
    UpdatedMeans(conf, db, two, c, DIS);
    SearchIs(b, Band24G, 12, 0);
    BecomesValid(conf, db, one, two, [c], Band24G, 12);
  }

  lemma AqAndDe(conf: Conf, db: RegDb, k: nat)
    requires conf.disFlags == 0 && !Excluded(conf, Band24G, 12) && KnowsBoth(db)
    ensures forall reqs | reqs in {[AqReq()], [AqReq(), DeReq()]} ::
              var f := RegFlags(conf, db, reqs, Band24G, 12);
              !BitSet(f, DIS) && (BitSet(f, k) <==> BitSet(Bit(NO_IR), k))
  {
    hide RegFlags, Excluded;
    var one, two := [AqReq()], [AqReq(), DeReq()];
    Intersection(conf, db, one, Band24G, 12, k);
    Intersection(conf, db, two, Band24G, 12, k);
    assert AqReq() in one && AqReq() in two;
    DisBit();
  }

  lemma HintRuleAppears(was: Alpha2)
    ensures !HintRule(StatusAlpha2(was, [AqReq()])) && HintRule(StatusAlpha2(was, [AqReq(), DeReq()]))
  {
    var a, d := AqReq(), DeReq();
    assert [a][..0] == [] && [a, d][..1] == [a];
    assert InForce([]) == [];
    assert InForce([a]) == [a] && InForce([a, d]) == [a, d];
    assert Summary([a]) == StatusOf(a);
    assert Summary([a, d]) == Folded(StatusOf(a), d);
  }

  // ----- the channel set in place -----

  function CountEnabled(chs: seq<Info>): nat
    decreases |chs|
  {
    if chs == [] then 0 else CountEnabled(chs[..|chs| - 1]) + if Disabled(chs[|chs| - 1]) then 0 else 1
  }

  /** The entries whose DIS flag (0x01) is clear. */
  function EnabledAt(chs: seq<Info>): set<int> {
    set i | 0 <= i < |chs| && (chs[i].flags & 0x01) == 0
  }

  lemma {:induction false} CountEnabledIs(chs: seq<Info>)
    ensures CountEnabled(chs) == |EnabledAt(chs)|
    ensures forall i :: i in EnabledAt(chs) <==> 0 <= i < |chs| && chs[i].flags & 0x01 == 0
    decreases |chs|
  {
    hide BitSet;
    if chs != [] {
      var n := |chs| - 1;
      var before := EnabledAt(chs[..n]);
      CountEnabledIs(chs[..n]);
      Masks(chs[n].flags);
      assert EnabledAt(chs) == if chs[n].flags & 0x01 == 0 then before + {n} else before;
    }
  }

  class ChSet {
    const chs: array<Info>
    var enableChNum: nat

    constructor (chs: array<Info>)
      ensures this.chs == chs
    {
      this.chs, enableChNum := chs, 0;
    }

    /** rtw_chset_apply_from_rtk_priv */
    method ApplyFromRtkPriv(db: RegDb, r: Req, disFlags: bv8)
      requires r.src == REGD_SRC_RTK_PRIV
      modifies chs
      ensures forall k :: 0 <= k < chs.Length ==>
                chs[k] == var c := old(chs[k]); c.(flags := Step(c.flags, Judge(db, disFlags, r, c.band, c.num)))
    {
      var valid, valid6g := db.valid(r.plan.domain), db.valid(r.plan.domain6g);
      var i := 0;
      while i < chs.Length
        invariant i <= chs.Length
        invariant forall k :: 0 <= k < i ==>
                    chs[k] == var c := old(chs[k]); c.(flags := Step(c.flags, Judge(db, disFlags, r, c.band, c.num)))
        invariant forall k :: i <= k < chs.Length ==> chs[k] == old(chs[k])
      {
        chs[i] := ApplyToOne(chs[i], db, r, disFlags, valid, valid6g);
        i := i + 1;
      }
    }

    /** rtw_chset_apply_from_os */
    method ApplyFromOs(db: RegDb, r: Req, disFlags: bv8)
      requires r.src == REGD_SRC_OS
      modifies chs
      ensures forall k :: 0 <= k < chs.Length ==>
                chs[k] == var c := old(chs[k]); c.(flags := Step(c.flags, Judge(db, disFlags, r, c.band, c.num)))
    {
      var i := 0;
      while i < chs.Length
        invariant i <= chs.Length
        invariant forall k :: 0 <= k < i ==>
                    chs[k] == var c := old(chs[k]); c.(flags := Step(c.flags, Judge(db, disFlags, r, c.band, c.num)))
        invariant forall k :: i <= k < chs.Length ==> chs[k] == old(chs[k])
      {
        chs[i] := ApplyOsToOne(chs[i], db, r, disFlags);
        i := i + 1;
      }
    }

    /** rtw_rfctl_chset_apply_regd_reqs */
    method ApplyRegdReqs(db: RegDb, reqs: seq<Req>, disFlags: bv8)
      modifies chs
      ensures forall k :: 0 <= k < chs.Length ==>
                chs[k] == var c := old(chs[k]);
                          c.(flags := FlagsAfter(c.flags, Verdicts(db, disFlags, reqs, c.band, c.num)))
    {
      hide Judge, Step;
      var i := 0;
      while i < |reqs|
        invariant i <= |reqs|
        invariant forall k :: 0 <= k < chs.Length ==>
                    chs[k] == var c := old(chs[k]);
                              c.(flags := FlagsAfter(c.flags, Verdicts(db, disFlags, reqs[..i], c.band, c.num)))
      {
        VerdictsStep(db, disFlags, reqs, i);
        if reqs[i].applied {
          if reqs[i].src == REGD_SRC_RTK_PRIV {
            ApplyFromRtkPriv(db, reqs[i], disFlags);
          } else {
            ApplyFromOs(db, reqs[i], disFlags);
          }
        }
        i := i + 1;
      }
      assert reqs[..i] == reqs;
    }

    /** rtw_rfctl_chset_apply_regulatory */
    method ApplyRegulatory(conf: Conf, db: RegDb, reqs: seq<Req>)
      modifies this`enableChNum, chs
      ensures forall k :: 0 <= k < chs.Length ==> chs[k] == Final(conf, db, reqs, old(chs[k]))
      ensures enableChNum == CountEnabled(chs[..])
    {
      hide FlagsAfter, Verdicts, BitSet, Bit, IsExcluded, AllowsHint;
      var i := 0;
      while i < chs.Length
        invariant i <= chs.Length
        invariant forall k :: 0 <= k < i ==>
                    chs[k] == var c := old(chs[k]); c.(flags := if Excluded(conf, c.band, c.num) then Bit(DIS) else 0)
        invariant forall k :: i <= k < chs.Length ==> chs[k] == old(chs[k])
      {
        var excluded := BandExcluded(conf, chs[i].band, chs[i].num);
        chs[i] := chs[i].(flags := if excluded then Bit(DIS) else 0);
        i := i + 1;
      }
      ApplyRegdReqs(db, reqs, conf.disFlags);
      assert forall k :: 0 <= k < chs.Length ==>
          chs[k] == var c := old(chs[k]); c.(flags := RegFlags(conf, db, reqs, c.band, c.num));
      CountHints(conf);
    }

    /** The last loop of rtw_rfctl_chset_apply_regulatory: count enabled channels, take beacon hints into account. */
    method CountHints(conf: Conf)
      modifies this`enableChNum, chs
      ensures forall k :: 0 <= k < chs.Length ==>
                chs[k] == var c := old(chs[k]);
                          var seen := c.(regNoIr := BitSet(c.flags, NO_IR)); seen.(flags := WithHint(conf, seen))
      ensures enableChNum == CountEnabled(chs[..])
    {
      hide BitSet, Bit, AllowsHint, WithHint;
      enableChNum := 0;
      var i := 0;
      while i < chs.Length
        invariant i <= chs.Length && enableChNum == CountEnabled(chs[..i])
        invariant forall k :: 0 <= k < i ==>
                    chs[k] == var c := old(chs[k]);
                              var seen := c.(regNoIr := BitSet(c.flags, NO_IR)); seen.(flags := WithHint(conf, seen))
        invariant forall k :: i <= k < chs.Length ==> chs[k] == old(chs[k])
      {
        ghost var before := chs[..i];
        var c := chs[i].(regNoIr := BitSet(chs[i].flags, NO_IR));
        var flags, enabled := HintOne(conf, c);
        chs[i] := c.(flags := flags);
        if enabled {
          enableChNum := enableChNum + 1;
        }
        assert chs[..i + 1] == before + [chs[i]];
        assert (before + [chs[i]])[..i] == before;
        i := i + 1;
      }
      assert chs[..i] == chs[..];
    }

    /** _rtw_chset_search_bch without disabled channels */
    method SearchBch(band: Band, ch: u8) returns (idx: int)
      ensures var k := Search(chs[..], band, ch); idx == if k < chs.Length then k else -1
    {
      hide Search, BitSet;
      if ch == 0 {
        return -1;
      }
      var i := 0;
      while i < chs.Length
        invariant i <= chs.Length && forall j :: 0 <= j < i ==> !Usable(chs[j], band, ch)
      {
        if band == chs[i].band && ch == chs[i].num && !BitSet(chs[i].flags, DIS) {
          SearchIs(chs[..], band, ch, i);
          return i;
        }
        i := i + 1;
      }
      SearchIs(chs[..], band, ch, i);
      return -1;
    }

    /** _rtw_chset_is_bchbw_valid */
    method IsBchbwValid(q: Query, opChs: Option<seq<u8>>) returns (valid: bool)
      ensures valid == BchbwValid(chs[..], q, opChs)
    {
      hide Search, BitSet;
      if opChs == None {
        return false;
      }
      var ops, i := opChs.value, 0;
      while i < |ops|
        invariant i <= |ops| && forall j :: 0 <= j < i ==> OpChOk(chs[..], q, ops, j)
      {
        var idx := SearchBch(q.band, ops[i]);
        assert idx != -1 ==> chs[..][idx] == chs[idx];
        if idx == -1 {
          assert !OpChOk(chs[..], q, ops, i);
          return false;
        }
        var c := chs[idx];
        if (BitSet(c.flags, NO_IR) && (!q.allowPassive || (!q.allowPrimaryPassive && c.num == q.ch)))
           || (q.bw >= CHANNEL_WIDTH_40 && BitSet(c.flags, NO_HT40U) && i % 2 == 0)
           || (q.bw >= CHANNEL_WIDTH_40 && BitSet(c.flags, NO_HT40L) && i % 2 == 1)
           || (q.bw >= CHANNEL_WIDTH_80 && BitSet(c.flags, NO_80MHZ))
           || (q.bw >= CHANNEL_WIDTH_160 && BitSet(c.flags, NO_160MHZ)) {
          assert !OpChOk(chs[..], q, ops, i);
          return false;
        }
        i := i + 1;
      }
      return |ops| != 0;
    }
  }

  /** rtw_rfctl_is_excl_chs, rtw_rfctl_is_excl_chs_6g */
  method IsExclChs(excl: seq<u8>, ch: u8) returns (yes: bool)
    ensures yes == IsExcluded(excl, ch)
  {
    var i := 0;
    assert excl[0..] == excl;
    while i < |excl|
      invariant i <= |excl| && IsExcluded(excl, ch) == IsExcluded(excl[i..], ch)
    {
      if excl[i] == 0 {
        break;
      }
      if excl[i] == ch {
        return true;
      }
      assert excl[i..][1..] == excl[i + 1..];
      i := i + 1;
    }
    return false;
  }

  /** The condition of the loop that resets all flags. */
  method BandExcluded(conf: Conf, band: Band, num: u8) returns (excluded: bool)
    ensures excluded == Excluded(conf, band, num)
  {
    hide IsExcluded;
    if band == Band6G {
      excluded := IsExclChs(conf.excl6g, num);
    } else {
      excluded := IsExclChs(conf.excl, num);
      excluded := excluded || (band == Band5G && !conf.en11a);
    }
  }

  /** The body of the loop of rtw_chset_apply_from_rtk_priv. */
  method ApplyToOne(c: Info, db: RegDb, r: Req, disFlags: bv8, valid: bool, valid6g: bool) returns (c': Info)
    requires r.src == REGD_SRC_RTK_PRIV
    requires valid == db.valid(r.plan.domain) && valid6g == db.valid(r.plan.domain6g)
    ensures c' == c.(flags := Step(c.flags, Judge(db, disFlags, r, c.band, c.num)))
  {
    hide BitSet, Bit, Meets, Found, Step;
    StepMeans(c.flags);
    if BitSet(c.flags, DIS) || !(if c.band == Band6G then valid6g else valid) {
      return c;
    }
    var usable := LookUp(db, r, c.band, c.num);
    if usable.Some? && !Meets(usable.value, disFlags) {
      c' := c.(flags := c.flags | usable.value);
    } else {
      c' := c.(flags := Bit(DIS));
    }
  }

  /** The body of the loop of rtw_chset_apply_wiphy_chans. */
  method ApplyOsToOne(c: Info, db: RegDb, r: Req, disFlags: bv8) returns (c': Info)
    requires r.src == REGD_SRC_OS
    ensures c' == c.(flags := Step(c.flags, Judge(db, disFlags, r, c.band, c.num)))
  {
    hide BitSet, Bit, Meets, Step;
    StepMeans(c.flags);
    if BitSet(c.flags, DIS) {
      return c;
    }
    var flags := db.os(c.band, c.num);
    if BitSet(flags, DIS) || Meets(flags, disFlags) {
      c' := c.(flags := Bit(DIS));
    } else {
      c' := c.(flags := c.flags | flags);
    }
  }

  lemma StepMeans(x: bv8)
    ensures BitSet(x, DIS) ==> forall v :: Step(x, v) == x
    ensures Step(x, Skip) == x
    ensures !BitSet(x, DIS) ==> Step(x, Deny) == Bit(DIS) && forall f :: Step(x, Allow(f)) == x | f
  {
    hide BitSet, Bit;
  }

  method LookUp(db: RegDb, r: Req, band: Band, num: u8) returns (flags: Option<bv8>)
    ensures flags == Found(db, r, band, num)
  {
    if band != Band6G {
      flags := db.ch(r.plan.domain, num);
    } else {
      flags := db.ch6g(r.plan.domain6g, num);
    }
  }

  /** A channel in that loop: its flags after the beacon hint, and whether it counts. */
  method HintOne(conf: Conf, c: Info) returns (flags: bv8, enabled: bool)
    ensures flags == WithHint(conf, c) && enabled == !BitSet(flags, DIS)
  {
    hide BitSet, Bit, AllowsHint;
    flags, enabled := c.flags, !BitSet(c.flags, DIS);
    if enabled && BitSet(flags, NO_IR) && c.bcnHint && HintRule(conf.alpha2) && AllowsHint(c.band, c.num, flags) {
      HintKeepsEnabled(flags);
      flags := flags & !Bit(NO_IR);
    }
  }

  lemma HintKeepsEnabled(x: bv8)
    requires !BitSet(x, DIS)
    ensures !BitSet(x & !Bit(NO_IR), DIS)
  {
    ClearBit(x, NO_IR, DIS);
  }

  lemma VerdictsStep(db: RegDb, disFlags: bv8, reqs: seq<Req>, i: nat)
    requires i < |reqs|
    ensures forall band, num, flags ::
              FlagsAfter(flags, Verdicts(db, disFlags, reqs[..i + 1], band, num)) ==
                var f := FlagsAfter(flags, Verdicts(db, disFlags, reqs[..i], band, num));
                if reqs[i].applied then Step(f, Judge(db, disFlags, reqs[i], band, num)) else f
  {
    hide Judge, Step;
    assert reqs[..i + 1][..i] == reqs[..i];
    forall band, num, flags
      ensures FlagsAfter(flags, Verdicts(db, disFlags, reqs[..i + 1], band, num)) ==
                var f := FlagsAfter(flags, Verdicts(db, disFlags, reqs[..i], band, num));
                if reqs[i].applied then Step(f, Judge(db, disFlags, reqs[i], band, num)) else f
    {
      var vs := Verdicts(db, disFlags, reqs[..i], band, num);
      if reqs[i].applied {
        var v := Judge(db, disFlags, reqs[i], band, num);
        assert (vs + [v])[..|vs|] == vs;
      }
    }
  }
}
