/**
 Regulatory requests of rtw_chplan.c as values: the request list, reference-counted country-IE
 requests, which requests apply, and the status summed up from those.
 */
module Regd {
  import opened Common

  type Alpha2 = s: string | |s| == 2 witness "00"

  const WORLDWIDE_ALPHA2: Alpha2 := "00"
  const UNSPEC_ALPHA2: Alpha2 := "99"
  const INTERSECTED_ALPHA2: Alpha2 := "98"
  const RTW_CHPLAN_UNSPECIFIED: u8 := 0xFF

  /** struct country_chplan; edcca holds its EDCCA mode overrides, one for each band. */
  datatype Plan = Plan(alpha2: Alpha2, domain: u8, domain6g: u8, edcca: seq<u8>, txpwrLmt: u8, protoEn: bv8)

  /** enum regd_src_t and enum rtw_regd_inr, without the values that count them. */
  type Src = x: int | 0 <= x < 2
  type Inr = x: int | 0 <= x < 5

  const REGD_SRC_RTK_PRIV: Src := 0
  const REGD_SRC_OS: Src := 1
  const REGD_SRC_NUM := 2

  const SET_BY_INIT: Inr := 0
  const SET_BY_USER: Inr := 1
  const SET_BY_COUNTRY_IE: Inr := 2
  const SET_BY_NUM := 5

  datatype Req = Req(src: Src, inr: Inr, refCnt: int, applied: bool, plan: Plan)

  // ----- mark and sweep of country-IE requests -----

  predicate IsCountry(r: Req) {
    r.inr == SET_BY_COUNTRY_IE
  }

  function ClearRefs(reqs: seq<Req>): (r: seq<Req>)
    ensures |r| == |reqs|
    ensures forall i :: 0 <= i < |r| ==> r[i] == if IsCountry(reqs[i]) then reqs[i].(refCnt := 0) else reqs[i]
  {
    if reqs == [] then []
    else [if IsCountry(reqs[0]) then reqs[0].(refCnt := 0) else reqs[0]] + ClearRefs(reqs[1..])
  }

  /** Index of the country-IE request with this plan. */
  function FindCountry(reqs: seq<Req>, p: Plan): (k: nat)
    ensures k <= |reqs|
    ensures k < |reqs| ==> IsCountry(reqs[k]) && reqs[k].plan == p
    ensures forall j :: 0 <= j < k ==> !(IsCountry(reqs[j]) && reqs[j].plan == p)
  {
    if reqs == [] || (IsCountry(reqs[0]) && reqs[0].plan == p) then 0 else 1 + FindCountry(reqs[1..], p)
  }

  lemma {:induction false} FindCountryIs(reqs: seq<Req>, p: Plan, k: nat)
    requires k <= |reqs| && forall j :: 0 <= j < k ==> !(IsCountry(reqs[j]) && reqs[j].plan == p)
    requires k < |reqs| ==> IsCountry(reqs[k]) && reqs[k].plan == p
    ensures FindCountry(reqs, p) == k
  {
  }

  function AddReq(reqs: seq<Req>, p: Plan): seq<Req> {
    var k := FindCountry(reqs, p);
    if k < |reqs| then reqs[k := reqs[k].(refCnt := reqs[k].refCnt + 1)]
    else reqs + [Req(REGD_SRC_RTK_PRIV, SET_BY_COUNTRY_IE, 1, false, p)]
  }

  function AddAll(reqs: seq<Req>, ps: seq<Plan>): seq<Req>
    decreases |ps|
  {
    if ps == [] then reqs else AddReq(AddAll(reqs, ps[..|ps| - 1]), ps[|ps| - 1])
  }

  predicate Stays(r: Req) {
    !(IsCountry(r) && r.refCnt == 0)
  }

  function Sweep(reqs: seq<Req>): seq<Req> {
    if reqs == [] then []
    else if Stays(reqs[0]) then [reqs[0]] + Sweep(reqs[1..])
    else Sweep(reqs[1..])
  }

  /** What the handler makes of the list, given the plans of the records it goes by. */
  function Reconcile(reqs: seq<Req>, ps: seq<Plan>): seq<Req> {
    Sweep(AddAll(ClearRefs(reqs), ps))
  }

  // ----- the user's request -----

  predicate IsUser(r: Req) {
    r.inr == SET_BY_USER
  }

  /** Index of the user's request, what user_req points at. */
  function FindUser(reqs: seq<Req>): (k: nat)
    ensures k <= |reqs|
    ensures k < |reqs| ==> IsUser(reqs[k])
    ensures forall j :: 0 <= j < k ==> !IsUser(reqs[j])
  {
    if reqs == [] || IsUser(reqs[0]) then 0 else 1 + FindUser(reqs[1..])
  }

  lemma {:induction false} FindUserIs(reqs: seq<Req>, k: nat)
    requires k < |reqs| && IsUser(reqs[k]) && forall j :: 0 <= j < k ==> !IsUser(reqs[j])
    ensures FindUser(reqs) == k
  {
  }

  /** The user has one request only, whose plan is replaced. */
  function WithUser(reqs: seq<Req>, p: Plan): seq<Req> {
    var k := FindUser(reqs);
    if k < |reqs| then reqs[k := reqs[k].(plan := p)]
    else reqs + [Req(REGD_SRC_RTK_PRIV, SET_BY_USER, 0, false, p)]
  }

  // ----- what that amounts to -----

  function Others(reqs: seq<Req>): seq<Req> {
    if reqs == [] then []
    else if IsCountry(reqs[0]) then Others(reqs[1..])
    else [reqs[0]] + Others(reqs[1..])
  }

  function CountryPlans(reqs: seq<Req>): set<Plan> {
    set r | r in reqs && IsCountry(r) :: r.plan
  }

  function Count(ps: seq<Plan>, p: Plan): nat {
    if ps == [] then 0 else Count(ps[..|ps| - 1], p) + if ps[|ps| - 1] == p then 1 else 0
  }

  function Plans(ps: seq<Plan>): set<Plan> {
    set p | p in ps
  }

  /** No two country-IE requests with the same plan. */
  predicate OnePerPlan(reqs: seq<Req>) {
    forall i, j :: 0 <= i < j < |reqs| && IsCountry(reqs[i]) && IsCountry(reqs[j]) ==> reqs[i].plan != reqs[j].plan
  }

  predicate RefsCount(reqs: seq<Req>, ps: seq<Plan>) {
    forall i :: 0 <= i < |reqs| && IsCountry(reqs[i]) ==> reqs[i].refCnt == Count(ps, reqs[i].plan)
  }

  /** The country-IE requests are the distinct plans, each counted. */
  predicate InSync(reqs: seq<Req>, ps: seq<Plan>) {
    OnePerPlan(reqs) && RefsCount(reqs, ps) && CountryPlans(reqs) == Plans(ps)
  }

  lemma {:induction false} CountPositive(ps: seq<Plan>, p: Plan)
    ensures Count(ps, p) > 0 <==> p in ps
    decreases |ps|
  {
    if ps != [] {
      var front := ps[..|ps| - 1];
      assert ps == front + [ps[|ps| - 1]];
      CountPositive(front, p);
    }
  }

  lemma {:induction false} OthersCleared(reqs: seq<Req>)
    ensures Others(ClearRefs(reqs)) == Others(reqs)
  {
    if reqs != [] {
      OthersCleared(reqs[1..]);
      assert ClearRefs(reqs)[1..] == ClearRefs(reqs[1..]);
    }
  }

  lemma PlansCleared(reqs: seq<Req>)
    ensures CountryPlans(ClearRefs(reqs)) == CountryPlans(reqs)
  {
    var cleared := ClearRefs(reqs);
    forall p | p in CountryPlans(reqs) ensures p in CountryPlans(cleared) {
      var i :| 0 <= i < |reqs| && IsCountry(reqs[i]) && reqs[i].plan == p;
      assert cleared[i] in cleared;
    }
    forall p | p in CountryPlans(cleared) ensures p in CountryPlans(reqs) {
      var i :| 0 <= i < |cleared| && IsCountry(cleared[i]) && cleared[i].plan == p;
      assert reqs[i] in reqs;
    }
  }

  lemma {:induction false} OthersSnoc(reqs: seq<Req>, r: Req)
    requires IsCountry(r)
    ensures Others(reqs + [r]) == Others(reqs)
  {
    if reqs == [] {
      assert [] + [r] == [r] && [r][1..] == [];
    } else {
      assert (reqs + [r])[1..] == reqs[1..] + [r];
      OthersSnoc(reqs[1..], r);
    }
  }

  lemma {:induction false} OthersUpdated(reqs: seq<Req>, k: nat, r: Req)
    requires k < |reqs| && IsCountry(reqs[k]) && IsCountry(r)
    ensures Others(reqs[k := r]) == Others(reqs)
  {
    if k > 0 {
      OthersUpdated(reqs[1..], k - 1, r);
      assert reqs[k := r][1..] == reqs[1..][k - 1 := r];
    } else {
      assert reqs[k := r][1..] == reqs[1..];
    }
  }

  lemma PlansUpdated(reqs: seq<Req>, k: nat, r: Req)
    requires k < |reqs| && IsCountry(reqs[k]) && IsCountry(r) && r.plan == reqs[k].plan
    ensures CountryPlans(reqs[k := r]) == CountryPlans(reqs)
  {
    var now := reqs[k := r];
    forall p | p in CountryPlans(reqs) ensures p in CountryPlans(now) {
      var i :| 0 <= i < |reqs| && IsCountry(reqs[i]) && reqs[i].plan == p;
      assert now[i] in now;
    }
    forall p | p in CountryPlans(now) ensures p in CountryPlans(reqs) {
      var i :| 0 <= i < |now| && IsCountry(now[i]) && now[i].plan == p;
      assert reqs[i] in reqs;
    }
  }

  /** Marking: other requests untouched, country-IE requests counted, new ones for new plans. */
  predicate Marked(reqs: seq<Req>, now: seq<Req>, ps: seq<Plan>) {
    && Others(now) == Others(reqs) && OnePerPlan(now) && RefsCount(now, ps)
    && CountryPlans(now) == CountryPlans(reqs) + Plans(ps)
  }

  lemma MarkStep(reqs: seq<Req>, now: seq<Req>, ps: seq<Plan>, p: Plan)
    requires Marked(reqs, now, ps)
    ensures Marked(reqs, AddReq(now, p), ps + [p])
    ensures FindCountry(now, p) == |now| <==> p !in CountryPlans(reqs) + Plans(ps)
  {
    hide FindCountry, Others;
    var k := FindCountry(now, p);
    var next := AddReq(now, p);
    FoundIff(now, p);
    assert (ps + [p])[..|ps|] == ps;
    assert Plans(ps + [p]) == Plans(ps) + {p};
    forall q: Plan ensures Count(ps + [p], q) == Count(ps, q) + if p == q then 1 else 0 {
    }
    if k < |now| {
      assert now[k] in now;
      OthersUpdated(now, k, next[k]);
      PlansUpdated(now, k, next[k]);
    } else {
      AddedPlan(now, next[k]);
      CountPositive(ps, p);
    }
  }

  lemma FoundIff(reqs: seq<Req>, p: Plan)
    ensures FindCountry(reqs, p) < |reqs| <==> p in CountryPlans(reqs)
  {
    if p in CountryPlans(reqs) {
      var i :| 0 <= i < |reqs| && IsCountry(reqs[i]) && reqs[i].plan == p;
    }
  }

  lemma AddedPlan(reqs: seq<Req>, r: Req)
    requires IsCountry(r)
    ensures CountryPlans(reqs + [r]) == CountryPlans(reqs) + {r.plan} && Others(reqs + [r]) == Others(reqs)
  {
    OthersSnoc(reqs, r);
    assert r in reqs + [r];
    forall q | q in CountryPlans(reqs) ensures q in CountryPlans(reqs + [r]) {
      var x :| x in reqs && IsCountry(x) && x.plan == q;
      assert x in reqs + [r];
    }
  }

  lemma {:induction false} MarkAll(reqs: seq<Req>, ps: seq<Plan>)
    requires OnePerPlan(reqs)
    ensures Marked(reqs, AddAll(ClearRefs(reqs), ps), ps)
    decreases |ps|
  {
    hide Marked;
    if ps == [] {
      MarkNone(reqs);
    } else {
      var n := |ps| - 1;
      MarkAll(reqs, ps[..n]);
      MarkStep(reqs, AddAll(ClearRefs(reqs), ps[..n]), ps[..n], ps[n]);
      assert ps == ps[..n] + [ps[n]];
    }
  }

  lemma MarkNone(reqs: seq<Req>)
    requires OnePerPlan(reqs)
    ensures Marked(reqs, ClearRefs(reqs), [])
  {
    OthersCleared(reqs);
    PlansCleared(reqs);
  }

  lemma {:induction false} SweepMembers(reqs: seq<Req>)
    ensures forall r :: r in Sweep(reqs) <==> r in reqs && Stays(r)
  {
    if reqs != [] {
      SweepMembers(reqs[1..]);
      assert reqs == [reqs[0]] + reqs[1..];
    }
  }

  lemma {:induction false} SweepOthers(reqs: seq<Req>)
    ensures Others(Sweep(reqs)) == Others(reqs)
  {
    if reqs != [] {
      var rest := reqs[1..];
      SweepOthers(rest);
      if Stays(reqs[0]) {
        assert ([reqs[0]] + Sweep(rest))[1..] == Sweep(rest);
      }
    }
  }

  lemma {:induction false} SweepOnePerPlan(reqs: seq<Req>)
    requires OnePerPlan(reqs)
    ensures OnePerPlan(Sweep(reqs))
  {
    if reqs != [] {
      var rest := reqs[1..];
      SweepOnePerPlan(rest);
      SweepMembers(rest);
      forall r | r in Sweep(rest) && IsCountry(r) && IsCountry(reqs[0]) ensures r.plan != reqs[0].plan {
        var j :| 0 <= j < |rest| && rest[j] == r;
        assert reqs[j + 1] == r;
      }
    }
  }

  /**
   Mark and sweep: the country-IE requests end up being the distinct plans of the records with their
   counts, all other requests keep order and content, and the set of plans changed exactly if some
   plan was new or some request was swept.
   */
  lemma MarkAndSweep(reqs: seq<Req>, ps: seq<Plan>)
    requires OnePerPlan(reqs)
    ensures InSync(Reconcile(reqs, ps), ps)
    ensures Others(Reconcile(reqs, ps)) == Others(reqs)
    ensures CountryPlans(reqs) != CountryPlans(Reconcile(reqs, ps)) <==>
              || (exists p :: p in ps && p !in CountryPlans(reqs))
              || (exists r :: r in AddAll(ClearRefs(reqs), ps) && !Stays(r))
  {
    hide Sweep, Others, AddAll, ClearRefs;
    var marked := AddAll(ClearRefs(reqs), ps);
    var swept := Sweep(marked);
    MarkAll(reqs, ps);
    SweepMembers(marked);
    SweepOthers(marked);
    SweepOnePerPlan(marked);
    forall p ensures Count(ps, p) > 0 <==> p in ps {
      CountPositive(ps, p);
    }
    forall i | 0 <= i < |swept| && IsCountry(swept[i]) ensures swept[i].refCnt == Count(ps, swept[i].plan) {
      assert swept[i] in swept;
      var j :| 0 <= j < |marked| && marked[j] == swept[i];
    }
    forall p | p in CountryPlans(marked) ensures p in CountryPlans(swept) <==> p in ps {
      var j :| 0 <= j < |marked| && IsCountry(marked[j]) && marked[j].plan == p;
      assert marked[j].refCnt == Count(ps, p);
      if p in CountryPlans(swept) {
        var r :| r in swept && IsCountry(r) && r.plan == p;
        var i :| 0 <= i < |marked| && marked[i] == r;
      }
      if p in ps {
        assert marked[j] in swept;
      }
    }
    assert CountryPlans(swept) == Plans(ps);
    SweptSome(reqs, marked, ps);
  }

  lemma SweptSome(reqs: seq<Req>, marked: seq<Req>, ps: seq<Plan>)
    requires Marked(reqs, marked, ps)
    ensures (exists r :: r in marked && !Stays(r)) <==> exists p :: p in CountryPlans(reqs) && p !in ps
  {
    hide Others;
    if r :| r in marked && !Stays(r) {
      var i :| 0 <= i < |marked| && marked[i] == r;
      CountPositive(ps, r.plan);
      assert r.plan in CountryPlans(marked);
    }
    if p :| p in CountryPlans(reqs) && p !in ps {
      assert p in CountryPlans(marked);
      var i :| 0 <= i < |marked| && IsCountry(marked[i]) && marked[i].plan == p;
      CountPositive(ps, p);
      assert !Stays(marked[i]);
    }
  }

  // ----- which requests apply, and the status they add up to -----

  /** The always-apply settings, init_regd_always_apply and user_regd_always_apply. */
  datatype Always = Always(init: bool, user: bool)

  /** A request applies if its source is the highest and its initiator is that source's highest or always applies. */
  predicate Applies(reqs: seq<Req>, always: Always, r: Req) {
    && (forall q :: q in reqs ==> q.src <= r.src)
    && ((forall q :: q in reqs && q.src == r.src ==> q.inr <= r.inr) || AlwaysApplies(always, r))
  }

  predicate AlwaysApplies(always: Always, r: Req) {
    (r.inr == SET_BY_INIT && always.init) || (r.inr == SET_BY_USER && always.user)
  }

  function Applied(reqs: seq<Req>, always: Always): seq<Req> {
    AppliedIn(reqs, reqs, always)
  }

  /** The requests of part that apply by the measure of reqs. */
  function AppliedIn(part: seq<Req>, reqs: seq<Req>, always: Always): seq<Req>
    decreases |part|
  {
    if part == [] then []
    else
      var n := |part| - 1;
      if Applies(reqs, always, part[n]) then AppliedIn(part[..n], reqs, always) + [part[n]]
      else AppliedIn(part[..n], reqs, always)
  }

  datatype Status = Status(src: int, inrBmp: bv8, alpha2: Alpha2, domain: u8, domain6g: u8, protoEn: bv8)

  function Bit(k: nat): bv8 {
    match k
    case 0 => 0x01 case 1 => 0x02 case 2 => 0x04 case 3 => 0x08
    case 4 => 0x10 case 5 => 0x20 case 6 => 0x40 case _ => 0x80
  }

  predicate BitSet(x: bv8, k: nat) {
    x & Bit(k) != 0
  }

  /** rtw_rfctl_regd_status_init_by_req */
  function StatusOf(r: Req): Status {
    Status(r.src, Bit(r.inr), r.plan.alpha2, r.plan.domain, r.plan.domain6g, r.plan.protoEn)
  }

  /** One more applied request. */
  function Folded(s: Status, r: Req): Status {
    var p := r.plan;
    Status(
      s.src,
      s.inrBmp | Bit(r.inr),
      if s.alpha2 != p.alpha2 || s.domain != p.domain || s.domain6g != p.domain6g then INTERSECTED_ALPHA2 else s.alpha2,
      if s.domain != p.domain then RTW_CHPLAN_UNSPECIFIED else s.domain,
      if s.domain6g != p.domain6g then RTW_CHPLAN_UNSPECIFIED else s.domain6g,
      s.protoEn & p.protoEn)
  }

  function Summary(rs: seq<Req>): Status
    requires rs != []
    decreases |rs|
  {
    if |rs| == 1 then StatusOf(rs[0]) else Folded(Summary(rs[..|rs| - 1]), rs[|rs| - 1])
  }

  predicate SameDomains(p: Plan, q: Plan) {
    p.alpha2 == q.alpha2 && p.domain == q.domain && p.domain6g == q.domain6g
  }

  predicate OneDomain(rs: seq<Req>) {
    forall q, r :: q in rs && r in rs ==> q.plan.domain == r.plan.domain
  }

  predicate OneDomain6g(rs: seq<Req>) {
    forall q, r :: q in rs && r in rs ==> q.plan.domain6g == r.plan.domain6g
  }

  predicate OneRegion(rs: seq<Req>) {
    forall q, r :: q in rs && r in rs ==> SameDomains(q.plan, r.plan)
  }

  /**
   The status says of the applied requests what it is meant to say, in no particular order: whose they
   are, the country and domain codes if they agree on them, and the protocols that all of them enable.
   */
  predicate SumsUp(s: Status, rs: seq<Req>) {
    && (forall r :: r in rs ==> r.src == s.src)
    && (forall k: nat :: k < 8 ==> (BitSet(s.inrBmp, k) <==> SomeInr(rs, k)))
    && (forall k: nat :: k < 8 ==> (BitSet(s.protoEn, k) <==> AllEnable(rs, k)))
    && CodesSumUp(s, rs)
  }

  predicate SomeInr(rs: seq<Req>, k: nat) {
    exists r :: r in rs && r.inr == k
  }

  predicate AllEnable(rs: seq<Req>, k: nat) {
    forall r :: r in rs ==> BitSet(r.plan.protoEn, k)
  }

  predicate CodesSumUp(s: Status, rs: seq<Req>) {
    && (if OneDomain(rs) then forall r :: r in rs ==> s.domain == r.plan.domain else s.domain == 0xFF)
    && (if OneDomain6g(rs) then forall r :: r in rs ==> s.domain6g == r.plan.domain6g else s.domain6g == 0xFF)
    && (if OneRegion(rs) then forall r :: r in rs ==> s.alpha2 == r.plan.alpha2 else s.alpha2 == "98")
  }

  lemma OrBit(x: bv8, i: Inr, k: nat)
    requires k < 8
    ensures BitSet(x | Bit(i), k) <==> BitSet(x, k) || k == i
    ensures BitSet(Bit(i), k) <==> k == i
  {
  }

  lemma AndBit(x: bv8, y: bv8, k: nat)
    requires k < 8
    ensures BitSet(x & y, k) <==> BitSet(x, k) && BitSet(y, k)
  {
  }

  lemma SameBits(x: bv8, y: bv8)
    requires forall k: nat :: k < 8 ==> (BitSet(x, k) <==> BitSet(y, k))
    ensures x == y
  {
    assert BitSet(x, 0) <==> BitSet(y, 0);
    assert BitSet(x, 1) <==> BitSet(y, 1);
    assert BitSet(x, 2) <==> BitSet(y, 2);
    assert BitSet(x, 3) <==> BitSet(y, 3);
    assert BitSet(x, 4) <==> BitSet(y, 4);
    assert BitSet(x, 5) <==> BitSet(y, 5);
    assert BitSet(x, 6) <==> BitSet(y, 6);
    assert BitSet(x, 7) <==> BitSet(y, 7);
  }

  lemma OneSumsUp(r: Req)
    ensures SumsUp(StatusOf(r), [r])
  {
    hide Bit, BitSet;
    forall k: nat | k < 8 ensures BitSet(Bit(r.inr), k) <==> SomeInr([r], k) {
      OrBit(0, r.inr, k);
      assert r in [r];
    }
  }

  lemma SomeInrSnoc(rs: seq<Req>, r: Req, k: nat)
    ensures SomeInr(rs + [r], k) <==> SomeInr(rs, k) || r.inr == k
    ensures AllEnable(rs + [r], k) <==> AllEnable(rs, k) && BitSet(r.plan.protoEn, k)
  {
    hide BitSet;
    assert r in rs + [r];
    assert forall q :: q in rs ==> q in rs + [r];
  }

  lemma FoldCodes(s: Status, rs: seq<Req>, r: Req)
    requires rs != [] && CodesSumUp(s, rs)
    ensures CodesSumUp(Folded(s, r), rs + [r])
  {
    var all := rs + [r];
    assert rs[0] in rs && rs[0] in all && r in all;
    assert forall q :: q in rs ==> q in all;
  }

  lemma FoldSumsUp(s: Status, rs: seq<Req>, r: Req)
    requires rs != [] && SumsUp(s, rs) && r.src == s.src
    ensures SumsUp(Folded(s, r), rs + [r])
  {
    hide Bit, BitSet, SomeInr, AllEnable, CodesSumUp;
    var all, s' := rs + [r], Folded(s, r);
    forall k: nat | k < 8
      ensures BitSet(s'.inrBmp, k) <==> SomeInr(all, k)
      ensures BitSet(s'.protoEn, k) <==> AllEnable(all, k)
    {
      OrBit(s.inrBmp, r.inr, k);
      AndBit(s.protoEn, r.plan.protoEn, k);
      SomeInrSnoc(rs, r, k);
    }
    FoldCodes(s, rs, r);
  }

  /** The fold over the applied requests sums them up ... */
  lemma {:induction false} SummarySumsUp(rs: seq<Req>)
    requires rs != [] && forall q, r :: q in rs && r in rs ==> q.src == r.src
    ensures SumsUp(Summary(rs), rs)
    decreases |rs|
  {
    hide SumsUp, StatusOf, Folded;
    var n := |rs| - 1;
    if n == 0 {
      OneSumsUp(rs[0]);
      assert rs == [rs[0]];
    } else {
      var front := rs[..n];
      assert rs == front + [rs[n]];
      SummarySumsUp(front);
      SameSource(Summary(front), front, rs[n]);
      FoldSumsUp(Summary(front), front, rs[n]);
    }
  }

  /** In particular who asked: bit 0 is for the initial request, bit 1 for the user's, bit 2 for country elements. */
  lemma WhoseBits(rs: seq<Req>)
    requires rs != [] && forall q, r :: q in rs && r in rs ==> q.src == r.src
    ensures var bmp := Summary(rs).inrBmp;
            && (bmp & 0x01 != 0 <==> exists r :: r in rs && r.inr == SET_BY_INIT)
            && (bmp & 0x02 != 0 <==> exists r :: r in rs && IsUser(r))
            && (bmp & 0x04 != 0 <==> exists r :: r in rs && IsCountry(r))
  {
    hide Summary, CodesSumUp, AllEnable, BitSet;
    SummarySumsUp(rs);
    var bmp := Summary(rs).inrBmp;
    LowMasks(bmp);
    assert BitSet(bmp, 0) <==> SomeInr(rs, 0);
    assert BitSet(bmp, 1) <==> SomeInr(rs, 1);
    assert BitSet(bmp, 2) <==> SomeInr(rs, 2);
  }

  lemma LowMasks(x: bv8)
    ensures (BitSet(x, 0) <==> x & 0x01 != 0) && (BitSet(x, 1) <==> x & 0x02 != 0) && (BitSet(x, 2) <==> x & 0x04 != 0)
  {
  }

  lemma SameSource(s: Status, rs: seq<Req>, r: Req)
    requires rs != [] && SumsUp(s, rs) && forall q :: q in rs ==> q.src == r.src
    ensures r.src == s.src
  {
    assert rs[0] in rs;
  }

  /** ... and there is one such status only, so it depends neither on the order of the requests nor on repetitions. */
  lemma SummaryUnordered(rs: seq<Req>, rs': seq<Req>)
    requires rs != [] && (forall r :: r in rs <==> r in rs')
    requires forall q, r :: q in rs && r in rs ==> q.src == r.src
    ensures rs' != [] && Summary(rs') == Summary(rs)
  {
    hide Summary, BitSet;
    assert rs[0] in rs;
    SummarySumsUp(rs);
    SummarySumsUp(rs');
    var s, s' := Summary(rs), Summary(rs');
    forall k: nat | k < 8
      ensures BitSet(s.inrBmp, k) <==> BitSet(s'.inrBmp, k)
      ensures BitSet(s.protoEn, k) <==> BitSet(s'.protoEn, k)
    {
      assert SomeInr(rs, k) <==> SomeInr(rs', k);
      assert AllEnable(rs, k) <==> AllEnable(rs', k);
    }
    SameBits(s.inrBmp, s'.inrBmp);
    SameBits(s.protoEn, s'.protoEn);
  }

  lemma {:induction false} AppliedMembers(part: seq<Req>, reqs: seq<Req>, always: Always)
    ensures forall r :: r in AppliedIn(part, reqs, always) <==> r in part && Applies(reqs, always, r)
    decreases |part|
  {
    if part != [] {
      var n := |part| - 1;
      AppliedMembers(part[..n], reqs, always);
      assert part == part[..n] + [part[n]];
    }
  }

  /** A request list and a reordering of it have the same summary. */
  lemma SummaryOfPermutation(reqs: seq<Req>, reqs': seq<Req>, always: Always)
    requires multiset(reqs) == multiset(reqs')
    ensures Applied(reqs, always) == [] <==> Applied(reqs', always) == []
    ensures Applied(reqs, always) != [] ==> Summary(Applied(reqs, always)) == Summary(Applied(reqs', always))
  {
    hide Summary;
    AppliedMembers(reqs, reqs, always);
    AppliedMembers(reqs', reqs', always);
    var a, a' := Applied(reqs, always), Applied(reqs', always);
    assert forall r :: r in reqs <==> r in multiset(reqs);
    assert forall r :: r in reqs' <==> r in multiset(reqs');
    forall r ensures Applies(reqs, always, r) == Applies(reqs', always, r) {
    }
    assert forall r :: r in a <==> r in a';
    assert (a != [] ==> a[0] in a) && (a' != [] ==> a'[0] in a');
    if a != [] {
      SummaryUnordered(a, a');
    }
  }

  /** The requests marked as applied. */
  function InForce(reqs: seq<Req>): seq<Req>
    decreases |reqs|
  {
    if reqs == [] then []
    else
      var n := |reqs| - 1;
      if reqs[n].applied then InForce(reqs[..n]) + [reqs[n]] else InForce(reqs[..n])
  }

  lemma {:induction false} InForceMembers(reqs: seq<Req>)
    ensures forall r :: r in InForce(reqs) <==> r in reqs && r.applied
    decreases |reqs|
  {
    if reqs != [] {
      var n := |reqs| - 1;
      InForceMembers(reqs[..n]);
      assert reqs == reqs[..n] + [reqs[n]];
    }
  }

  /** The same request but for its count is in force there. */
  predicate WasInForce(reqs: seq<Req>, r: Req) {
    exists q :: q in reqs && q.applied && q == r.(refCnt := q.refCnt)
  }

  lemma {:induction false} AddedNotInForce(reqs: seq<Req>, ps: seq<Plan>)
    ensures forall r :: r in AddAll(reqs, ps) && r.applied ==> WasInForce(reqs, r)
    decreases |ps|
  {
    if ps == [] {
      forall r | r in reqs && r.applied ensures WasInForce(reqs, r) {
        assert r == r.(refCnt := r.refCnt);
      }
    } else {
      var n := |ps| - 1;
      var before := AddAll(reqs, ps[..n]);
      AddedNotInForce(reqs, ps[..n]);
      var k := FindCountry(before, ps[n]);
      forall r | r in AddReq(before, ps[n]) && r.applied ensures WasInForce(reqs, r) {
        if r !in before {
          assert before[k] in before && r == before[k].(refCnt := before[k].refCnt + 1);
        }
      }
    }
  }

  /** Neither reconciling the list with the records nor storing a first request of the user puts anything in force. */
  lemma NotYetInForce(reqs: seq<Req>, ps: seq<Plan>, p: Plan)
    ensures forall r :: r in InForce(Reconcile(reqs, ps)) ==> WasInForce(reqs, r)
    ensures FindUser(reqs) == |reqs| ==> InForce(WithUser(reqs, p)) == InForce(reqs)
  {
    hide WasInForce, FindUser;
    var cleared := ClearRefs(reqs);
    InForceMembers(Reconcile(reqs, ps));
    SweepMembers(AddAll(cleared, ps));
    AddedNotInForce(cleared, ps);
    forall r | WasInForce(cleared, r) ensures WasInForce(reqs, r) {
      ClearedInForce(reqs, r);
    }
    if FindUser(reqs) == |reqs| {
      assert WithUser(reqs, p)[..|reqs|] == reqs;
    }
  }

  lemma ClearedInForce(reqs: seq<Req>, r: Req)
    requires WasInForce(ClearRefs(reqs), r)
    ensures WasInForce(reqs, r)
  {
    var cleared := ClearRefs(reqs);
    var i :| 0 <= i < |cleared| && cleared[i].applied && cleared[i] == r.(refCnt := cleared[i].refCnt);
    assert reqs[i] in reqs;
  }

  /** The same requests, but for the marks. */
  predicate SameButMarks(rs: seq<Req>, rs': seq<Req>) {
    |rs| == |rs'| && forall i :: 0 <= i < |rs| ==> rs'[i] == rs[i].(applied := rs'[i].applied)
  }

  lemma FoldedButMark(s: Status, r: Req, r': Req)
    requires r' == r.(applied := r'.applied)
    ensures StatusOf(r') == StatusOf(r) && Folded(s, r') == Folded(s, r)
  {
  }

  /** The status does not depend on the marks, */
  lemma {:induction false} SummaryButMarks(rs: seq<Req>, rs': seq<Req>)
    requires rs != [] && SameButMarks(rs, rs')
    ensures Summary(rs) == Summary(rs')
    decreases |rs|
  {
    hide StatusOf, Folded;
    var n := |rs| - 1;
    FoldedButMark(Summary(rs), rs[n], rs'[n]);
    if n > 0 {
      FoldedButMark(Summary(rs[..n]), rs[n], rs'[n]);
      assert forall i :: 0 <= i < n ==> rs[..n][i] == rs[i] && rs'[..n][i] == rs'[i];
      SummaryButMarks(rs[..n], rs'[..n]);
    }
  }

  lemma {:induction false} MarkedAsApplied(part: seq<Req>, part': seq<Req>, reqs: seq<Req>, always: Always)
    requires |part'| == |part|
    requires forall i :: 0 <= i < |part| ==> part'[i] == part[i].(applied := Applies(reqs, always, part[i]))
    ensures SameButMarks(AppliedIn(part, reqs, always), InForce(part'))
    decreases |part|
  {
    hide Applies;
    if part != [] {
      var n := |part| - 1;
      MarkedAsApplied(part[..n], part'[..n], reqs, always);
    }
  }

  /** so after the selection it is that of the requests marked as applied. */
  lemma SummaryOfMarked(was: seq<Req>, reqs: seq<Req>, always: Always)
    requires was != [] && |reqs| == |was|
    requires forall i :: 0 <= i < |was| ==> reqs[i] == was[i].(applied := Applies(was, always, was[i]))
    ensures Applied(was, always) != [] && InForce(reqs) != []
    ensures Summary(Applied(was, always)) == Summary(InForce(reqs))
  {
    hide Applies, Summary;
    SomeApplies(was, always);
    MarkedAsApplied(was, reqs, was, always);
    SummaryButMarks(Applied(was, always), InForce(reqs));
  }

  /** The highest request applies, so a list that is not empty has a status. */
  lemma {:induction false} SomeApplies(reqs: seq<Req>, always: Always)
    requires reqs != []
    ensures Applied(reqs, always) != []
  {
    var k := Highest(reqs);
    AppliedMembers(reqs, reqs, always);
    assert Applies(reqs, always, reqs[k]);
    assert reqs[k] in Applied(reqs, always);
  }

  /**
   By who asked, the Realtek requests coming from the start, the user and country elements: a request of the OS
   puts them all out of force; else the country-IE ones apply if there are any, else the user's, else the
   initial one, besides those that apply always.
   */
  lemma WhoApplies(reqs: seq<Req>, always: Always)
    requires forall q :: q in reqs && q.src == REGD_SRC_RTK_PRIV ==> q.inr == SET_BY_INIT || IsUser(q) || IsCountry(q)
    ensures (exists q :: q in reqs && q.src == REGD_SRC_OS) ==>
              forall r :: r in Applied(reqs, always) ==> r.src == REGD_SRC_OS
    ensures (forall q :: q in reqs ==> q.src == REGD_SRC_RTK_PRIV) ==>
              forall r :: r in Applied(reqs, always) <==>
                && r in reqs
                && (|| (if exists q :: q in reqs && IsCountry(q) then IsCountry(r)
                        else if exists q :: q in reqs && IsUser(q) then IsUser(r)
                        else r.inr == SET_BY_INIT)
                    || (r.inr == SET_BY_INIT && always.init)
                    || (IsUser(r) && always.user))
  {
    AppliedMembers(reqs, reqs, always);
  }

  predicate IsHighest(reqs: seq<Req>, h: Req) {
    h in reqs && forall q :: q in reqs ==> q.src < h.src || (q.src == h.src && q.inr <= h.inr)
  }

  /**
   One more request leaves all that applied in force exactly if it is no higher than the highest so far,
   or of the same source and that one applies always.
   */
  lemma AddingKeepsApplied(reqs: seq<Req>, always: Always, r: Req, h: Req)
    requires IsHighest(reqs, h)
    ensures (forall q | q in reqs && Applies(reqs, always, q) :: Applies(reqs + [r], always, q))
        <==> r.src < h.src || (r.src == h.src && (r.inr <= h.inr || AlwaysApplies(always, h)))
  {
    var all := reqs + [r];
    assert r in all && h in all && Applies(reqs, always, h);
    assert forall q :: q in all <==> q in reqs || q == r;
  }

  lemma {:induction false} Highest(reqs: seq<Req>) returns (k: nat)
    requires reqs != []
    ensures k < |reqs|
    ensures forall q :: q in reqs ==> q.src < reqs[k].src || (q.src == reqs[k].src && q.inr <= reqs[k].inr)
    decreases |reqs|
  {
    var n := |reqs| - 1;
    k := n;
    if n > 0 {
      var j := Highest(reqs[..n]);
      assert reqs == reqs[..n] + [reqs[n]];
      if reqs[n].src < reqs[j].src || (reqs[n].src == reqs[j].src && reqs[n].inr <= reqs[j].inr) {
        k := j;
      }
    }
  }
}
