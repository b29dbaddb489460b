/**
 Country-IE records of rtw_chplan.c as values: which of them takes effect, and which plans they ask for.
 */
module Cisr {
  import opened Common
  import opened Regd

  /** enum country_ie_slave_status */
  datatype Country = NoCountry | Unknown | OpchNoExist | Applicable

  /** struct country_ie_slave_record */
  datatype Record = Record(alpha2: Alpha2, band: nat, opch: u8, status: Country, plan: Plan)

  const NO_ALPHA2: Alpha2 := "\0\0"
  const NONCOUNTRY_ALPHA2: Alpha2 := "XX"

  /** The plan of a record that has been zeroed. */
  const NO_PLAN: Plan := Plan(NO_ALPHA2, 0, 0, [0, 0, 0], 0, 0)

  /** Country tables: a country's plan, the worldwide plan, a plan's EDCCA modes, and whether a plan has a channel. */
  datatype Tables = Tables(
    country: Alpha2 -> Option<Plan>,
    worldwide: Plan,
    edcca: Plan -> seq<u8>,
    hasCh: (Plan, nat, u8) -> bool)

  /** No table holds a zeroed plan. */
  ghost predicate RealPlans(t: Tables) {
    t.worldwide.alpha2 == WORLDWIDE_ALPHA2 && forall code :: t.country(code) != Some(NO_PLAN)
  }

  /** rtw_get_cisr_from_recv_country_ie: the record made of a received country element, if there is one. */
  function Received(t: Tables, band: nat, opch: u8, country: Option<Alpha2>): Record {
    match country
    case None => Record(NO_ALPHA2, band, opch, NoCountry, NO_PLAN)
    case Some(code) =>
      if code == NONCOUNTRY_ALPHA2 then Record(code, band, opch, NoCountry, NO_PLAN)
      else match t.country(code)
           case None => Record(code, band, opch, Unknown, t.worldwide)
           case Some(p) =>
             if t.hasCh(p, band, opch) then Record(code, band, opch, Applicable, p)
             else Record(code, band, opch, OpchNoExist, t.worldwide.(edcca := t.edcca(p)))
  }

  /** A record has a country exactly if its plan is filled in. */
  predicate Whole(r: Record) {
    r.status == NoCountry <==> r.plan == NO_PLAN
  }

  /** Received records are. */
  lemma ReceivedIsWhole(t: Tables, band: nat, opch: u8, country: Option<Alpha2>)
    requires RealPlans(t)
    ensures Whole(Received(t, band, opch, country))
    ensures country in {None, Some("XX")} ==>
              Received(t, band, opch, country).plan == Plan("\0\0", 0, 0, [0, 0, 0], 0, 0)
  {
    assert WORLDWIDE_ALPHA2[0] != NO_ALPHA2[0];
    if country.Some? {
      assert t.country(country.value) != Some(NO_PLAN);
    }
  }

  /** cisr_status_score */
  function Score(s: Country): nat {
    match s
    case NoCountry => 0
    case Unknown => 3
    case OpchNoExist => 2
    case Applicable => 1
  }

  /** The plans of the records that have a country. */
  function PlansOf(rs: seq<Record>): seq<Plan>
    decreases |rs|
  {
    if rs == [] then []
    else
      var n := |rs| - 1;
      if rs[n].status == NoCountry then PlansOf(rs[..n]) else PlansOf(rs[..n]) + [rs[n].plan]
  }

  // ----- the record in effect -----

  /** Does the loop prefer r to the record it has picked so far? now is the record in effect at present. */
  predicate Better(now: Option<Record>, best: Record, r: Record) {
    || Score(r.status) > Score(best.status)
    || (&& Score(r.status) == Score(best.status) && now.Some? && now.value.status == best.status
        && now.value.alpha2 != best.alpha2 && now.value.alpha2 == r.alpha2)
  }

  function Pick(rs: seq<Record>, now: Option<Record>): Option<Record>
    decreases |rs|
  {
    if rs == [] then None
    else
      var n := |rs| - 1;
      var best, r := Pick(rs[..n], now), rs[n];
      if r.status != NoCountry && (best == None || Better(now, best.value, r)) then Some(r) else best
  }

  predicate HasCountry(rs: seq<Record>) {
    exists r :: r in rs && r.status != NoCountry
  }

  predicate Maximal(rs: seq<Record>, r: Record) {
    r in rs && r.status != NoCountry && forall q :: q in rs ==> Score(q.status) <= Score(r.status)
  }

  /** A maximal record with the status and country code now in effect. */
  predicate Preferred(rs: seq<Record>, now: Option<Record>, r: Record) {
    Maximal(rs, r) && now.Some? && now.value.status == r.status && now.value.alpha2 == r.alpha2
  }

  /**
   The pick is a maximal record, if any record has a country at all, and one with the current country
   code whenever the current status is maximal and a record with that code is.
   */
  lemma {:induction false} PickIsMaximal(rs: seq<Record>, now: Option<Record>)
    ensures Pick(rs, now).Some? <==> HasCountry(rs)
    ensures Pick(rs, now).Some? ==> Maximal(rs, Pick(rs, now).value)
    ensures (exists r :: Preferred(rs, now, r)) ==> Pick(rs, now).Some? && Preferred(rs, now, Pick(rs, now).value)
    decreases |rs|
  {
    if rs != [] {
      var n := |rs| - 1;
      var front, r := rs[..n], rs[n];
      assert rs == front + [r] && r in rs;
      PickIsMaximal(front, now);
      PickStep(front, r, now);
      if q :| Preferred(rs, now, q) {
        PreferredStep(front, r, now, q);
      }
    }
  }

  lemma PickStep(front: seq<Record>, r: Record, now: Option<Record>)
    requires Pick(front, now).Some? <==> HasCountry(front)
    requires Pick(front, now).Some? ==> Maximal(front, Pick(front, now).value)
    ensures var rs := front + [r];
            && (Pick(rs, now).Some? <==> HasCountry(rs))
            && (Pick(rs, now).Some? ==> Maximal(rs, Pick(rs, now).value))
  {
    var rs := front + [r];
    assert rs[..|front|] == front && r in rs;
    assert forall q :: q in rs <==> q in front || q == r;
  }

  lemma PreferredStep(front: seq<Record>, r: Record, now: Option<Record>, q: Record)
    requires Pick(front, now).Some? <==> HasCountry(front)
    requires Pick(front, now).Some? ==> Maximal(front, Pick(front, now).value)
    requires (exists x :: Preferred(front, now, x)) ==>
               Pick(front, now).Some? && Preferred(front, now, Pick(front, now).value)
    requires Preferred(front + [r], now, q)
    ensures Pick(front + [r], now).Some? && Preferred(front + [r], now, Pick(front + [r], now).value)
  {
    var rs := front + [r];
    assert rs[..|front|] == front && rs[|front|] == r;
    assert forall x :: x in rs <==> x in front || x == r;
    if q in front && Score(r.status) <= Score(q.status) {
      assert Preferred(front, now, q);
    }
  }

  /** If no maximal record is preferred, the pick is the first maximal one. */
  lemma PickIsFirst(rs: seq<Record>, now: Option<Record>, k: nat)
    requires k < |rs| && Maximal(rs, rs[k]) && !exists r :: Preferred(rs, now, r)
    requires forall j :: 0 <= j < k ==> !Maximal(rs, rs[j])
    ensures Pick(rs, now) == Some(rs[k])
  {
    PickUpTo(rs, now, k, |rs|);
    assert rs[..|rs|] == rs;
  }

  lemma {:induction false} PickUpTo(rs: seq<Record>, now: Option<Record>, k: nat, n: nat)
    requires k < |rs| && Maximal(rs, rs[k]) && !exists r :: Preferred(rs, now, r)
    requires forall j :: 0 <= j < k ==> !Maximal(rs, rs[j])
    requires n <= |rs|
    ensures n > k ==> Pick(rs[..n], now) == Some(rs[k])
    ensures n <= k && Pick(rs[..n], now).Some? ==> Score(Pick(rs[..n], now).value.status) < Score(rs[k].status)
  {
    if n > 0 {
      PickUpTo(rs, now, k, n - 1);
      var r := rs[n - 1];
      assert rs[..n][..n - 1] == rs[..n - 1] && rs[..n][n - 1] == r && r in rs;
      assert !Preferred(rs, now, r);
      if n - 1 < k && r.status != NoCountry {
        assert Score(r.status) < Score(rs[k].status);
      }
    }
  }

  /** An unknown country goes before one that lacks the operating channel, and that before one that applies. */
  lemma PickByStatus(rs: seq<Record>, now: Option<Record>)
    ensures match Pick(rs, now)
            case None => forall r :: r in rs ==> r.status == NoCountry
            case Some(best) =>
              && best in rs && best.status != NoCountry
              && ((exists r :: r in rs && r.status == Unknown) ==> best.status == Unknown)
              && ((exists r :: r in rs && r.status == OpchNoExist) ==> best.status != Applicable)
  {
    PickIsMaximal(rs, now);
  }

  /** A country element, or its absence, as heard on an operating channel. */
  datatype Heard = Heard(band: nat, opch: u8, country: Option<Alpha2>)

  function AllReceived(t: Tables, hs: seq<Heard>): (rs: seq<Record>)
    ensures |rs| == |hs| && forall i :: 0 <= i < |hs| ==> rs[i] == Received(t, hs[i].band, hs[i].opch, hs[i].country)
  {
    if hs == [] then [] else [Received(t, hs[0].band, hs[0].opch, hs[0].country)] + AllReceived(t, hs[1..])
  }

  /** The element names a country, and the table has this plan for it. */
  predicate Names(t: Tables, h: Heard, plan: Option<Plan>) {
    h.country.Some? && h.country.value != "XX" && t.country(h.country.value) == plan
  }

  predicate HasChannel(t: Tables, h: Heard, p: Plan) {
    t.hasCh(p, h.band, h.opch)
  }

  /**
   What is put into effect of all elements heard: the worldwide plan if some country is not in the table;
   else, if some country's plan lacks the channel it was heard on, the worldwide plan with the EDCCA modes
   of such a country; else the plan of one of the countries; nothing if no country is named.
   */
  lemma PickOfHeard(t: Tables, hs: seq<Heard>, now: Option<Record>)
    ensures var best := Pick(AllReceived(t, hs), now);
            if exists h :: h in hs && Names(t, h, None)
            then best.Some? && best.value.plan == t.worldwide
            else if exists h, p :: h in hs && Names(t, h, Some(p)) && !HasChannel(t, h, p)
            then && best.Some?
                 && exists h, p :: h in hs && Names(t, h, Some(p)) && !HasChannel(t, h, p)
                                   && best.value.plan == t.worldwide.(edcca := t.edcca(p))
            else if exists h, p :: h in hs && Names(t, h, Some(p))
            then best.Some? && exists h :: h in hs && Names(t, h, Some(best.value.plan))
            else best == None
  {
    hide AllReceived, Pick;
    var rs := AllReceived(t, hs);
    PickByStatus(rs, now);
    forall i | 0 <= i < |hs|
      ensures rs[i] in rs && hs[i] in hs
      ensures rs[i].status == NoCountry <==> hs[i].country == None || hs[i].country == Some("XX")
      ensures rs[i].status == Unknown <==> Names(t, hs[i], None)
      ensures rs[i].status == Unknown ==> rs[i].plan == t.worldwide
      ensures rs[i].status == OpchNoExist <==> exists p :: Names(t, hs[i], Some(p)) && !HasChannel(t, hs[i], p)
      ensures forall p :: rs[i].status == OpchNoExist && Names(t, hs[i], Some(p)) ==>
                            rs[i].plan == t.worldwide.(edcca := t.edcca(p)) && !HasChannel(t, hs[i], p)
      ensures rs[i].status == Applicable ==> Names(t, hs[i], Some(rs[i].plan))
    {
      if hs[i].country.Some? && t.country(hs[i].country.value).Some? {
        assert hs[i].country.value != "XX" ==> Names(t, hs[i], Some(t.country(hs[i].country.value).value));
      }
    }
  }

  // ----- updates that skip the mark phase -----

  /** Some records have been replaced by rec, all of them with rec's plan before. */
  predicate SamePlanUpdate(rs: seq<Record>, rs': seq<Record>, rec: Record) {
    && |rs| == |rs'|
    && forall k :: 0 <= k < |rs| ==> rs'[k] == rs[k] || (rs'[k] == rec && rs[k].plan == rec.plan)
  }

  predicate SameCountries(rs: seq<Record>, rs': seq<Record>)
    requires |rs| == |rs'|
  {
    forall k :: 0 <= k < |rs| ==> (rs'[k].status == NoCountry <==> rs[k].status == NoCountry)
  }

  lemma {:induction false} SamePlans(rs: seq<Record>, rs': seq<Record>, rec: Record)
    requires SamePlanUpdate(rs, rs', rec) && SameCountries(rs, rs')
    ensures PlansOf(rs') == PlansOf(rs)
    decreases |rs|
  {
    if rs != [] {
      SamePlans(rs[..|rs| - 1], rs'[..|rs| - 1], rec);
    }
  }

  lemma {:induction false} CountMoves(rs: seq<Record>, rs': seq<Record>, rec: Record)
    requires SamePlanUpdate(rs, rs', rec)
    ensures var c, c' := Count(PlansOf(rs), rec.plan), Count(PlansOf(rs'), rec.plan);
            && (if rec.status == NoCountry then c' <= c else c <= c')
            && (c == c' ==> SameCountries(rs, rs'))
    decreases |rs|
  {
    hide Count, SameCountries, SamePlanUpdate;
    SameLast(rs, rs', rec);
    if rs != [] {
      var n := |rs| - 1;
      CountMoves(rs[..n], rs'[..n], rec);
      CountOne(PlansOf(rs[..n]), rs[n].plan, rec.plan);
      CountOne(PlansOf(rs'[..n]), rs'[n].plan, rec.plan);
    }
  }

  lemma SameLast(rs: seq<Record>, rs': seq<Record>, rec: Record)
    requires SamePlanUpdate(rs, rs', rec)
    ensures |rs| == |rs'| && (rs == [] ==> SameCountries(rs, rs'))
    ensures rs != [] ==>
              var n := |rs| - 1;
              && SamePlanUpdate(rs[..n], rs'[..n], rec)
              && (rs'[n] == rs[n] || (rs'[n] == rec && rs[n].plan == rec.plan))
              && (SameCountries(rs, rs') <==>
                    SameCountries(rs[..n], rs'[..n]) && (rs'[n].status == NoCountry <==> rs[n].status == NoCountry))
  {
    if rs != [] {
      var n := |rs| - 1;
      assert forall k :: 0 <= k < n ==> rs[..n][k] == rs[k] && rs'[..n][k] == rs'[k];
    }
  }

  lemma CountOne(ps: seq<Plan>, q: Plan, p: Plan)
    ensures Count(ps + [q], p) == Count(ps, p) + if q == p then 1 else 0
  {
    assert (ps + [q])[..|ps|] == ps;
  }

  lemma SyncCounts(reqs: seq<Req>, ps: seq<Plan>, ps': seq<Plan>, p: Plan)
    requires InSync(reqs, ps) && InSync(reqs, ps')
    ensures Count(ps, p) == Count(ps', p)
  {
    CountPositive(ps, p);
    CountPositive(ps', p);
    if p in CountryPlans(reqs) {
      var i :| 0 <= i < |reqs| && IsCountry(reqs[i]) && reqs[i].plan == p;
    } else {
      assert p !in Plans(ps) && p !in Plans(ps');
    }
  }

  /**
   In intersect mode an update that changes no link's plan leaves the request list as it was. For records
   of any kind the list still counts the links then exactly if none has gained or lost its country.
   */
  lemma SkippedUpdate(reqs: seq<Req>, rs: seq<Record>, rs': seq<Record>, rec: Record)
    requires InSync(reqs, PlansOf(rs)) && SamePlanUpdate(rs, rs', rec)
    ensures InSync(reqs, PlansOf(rs')) <==> SameCountries(rs, rs')
  {
    hide InSync, SameCountries;
    CountMoves(rs, rs', rec);
    if SameCountries(rs, rs') {
      SamePlans(rs, rs', rec);
    } else if InSync(reqs, PlansOf(rs')) {
      SyncCounts(reqs, PlansOf(rs), PlansOf(rs'), rec.plan);
      assert false;
    }
  }

  // ----- the request list over a run of updates -----

  /** The request list, the links' records, and whether the list goes by them: in per-link intersect mode. */
  datatype SyncState = SyncState(reqs: seq<Req>, links: seq<Record>, perLink: bool)

  /**
   One call of the country-IE handler with record rec: some links get it, and in per-link intersect mode
   either the list is reconciled with the records, or it stays because no link's plan changed; the latter
   only if that was the mode before.
   */
  predicate SyncStep(s: SyncState, s': SyncState, rec: Record) {
    && |s'.links| == |s.links|
    && (forall k :: 0 <= k < |s.links| ==> s'.links[k] == s.links[k] || (s'.links[k] == rec && Whole(rec)))
    && (if s'.perLink
        then || s'.reqs == Reconcile(s.reqs, PlansOf(s'.links))
             || (s.perLink && s'.reqs == s.reqs && SamePlanUpdate(s.links, s'.links, rec))
        else OnePerPlan(s'.reqs))
  }

  datatype Counted = Counted(plan: Plan, refCnt: int)

  /** Plan and count of every country-IE request. */
  function CountryPart(reqs: seq<Req>): seq<Counted> {
    if reqs == [] then []
    else if IsCountry(reqs[0]) then [Counted(reqs[0].plan, reqs[0].refCnt)] + CountryPart(reqs[1..])
    else CountryPart(reqs[1..])
  }

  /** Anything else in between: marking requests as applied, requests of the user, leaving the mode. */
  predicate OtherStep(s: SyncState, s': SyncState) {
    && s'.links == s.links
    && if s'.perLink then s.perLink && CountryPart(s'.reqs) == CountryPart(s.reqs) else OnePerPlan(s'.reqs)
  }

  predicate InSyncState(s: SyncState) {
    && (forall r :: r in s.links ==> Whole(r))
    && OnePerPlan(s.reqs)
    && (s.perLink ==> InSync(s.reqs, PlansOf(s.links)))
  }

  /** At first there are no country-IE requests and no records. */
  predicate Initial(s: SyncState) {
    && (forall r :: r in s.reqs ==> !IsCountry(r))
    && (forall r :: r in s.links ==> r.status == NoCountry && r.plan == NO_PLAN)
  }

  ghost predicate AStep(s: SyncState, s': SyncState) {
    OtherStep(s, s') || exists rec :: SyncStep(s, s', rec)
  }

  ghost predicate Run(trace: seq<SyncState>) {
    && trace != [] && Initial(trace[0])
    && forall i :: 0 <= i < |trace| - 1 ==> AStep(trace[i], trace[i + 1])
  }

  lemma {:induction false} NoPlans(rs: seq<Record>)
    requires forall r :: r in rs ==> r.status == NoCountry
    ensures PlansOf(rs) == []
    decreases |rs|
  {
    if rs != [] {
      var n := |rs| - 1;
      assert rs[n] in rs;
      NoPlans(rs[..n]);
    }
  }

  lemma InitialInSync(s: SyncState)
    requires Initial(s)
    ensures InSyncState(s)
  {
    NoPlans(s.links);
    assert forall i :: 0 <= i < |s.reqs| ==> s.reqs[i] in s.reqs;
  }

  /** An update that skips the mark phase leaves every link with or without a country, as it was. */
  lemma StepKeepsSync(s: SyncState, s': SyncState, rec: Record)
    requires InSyncState(s) && SyncStep(s, s', rec)
    ensures InSyncState(s')
  {
    hide InSync, PlansOf, Reconcile, Whole, OnePerPlan;
    forall r | r in s'.links ensures Whole(r) {
      var k :| 0 <= k < |s'.links| && s'.links[k] == r;
      assert s.links[k] in s.links;
    }
    if !s'.perLink {
      return;
    }
    if s'.reqs == Reconcile(s.reqs, PlansOf(s'.links)) {
      MarkAndSweep(s.reqs, PlansOf(s'.links));
      SyncIsOnePerPlan(s'.reqs, PlansOf(s'.links));
    } else {
      forall k | 0 <= k < |s.links| ensures s'.links[k].status == NoCountry <==> s.links[k].status == NoCountry {
        assert s.links[k] in s.links && s'.links[k] in s'.links;
        SamePlanSameCountry(s.links[k], s'.links[k]);
      }
      SamePlans(s.links, s'.links, rec);
    }
  }

  lemma SyncIsOnePerPlan(reqs: seq<Req>, ps: seq<Plan>)
    requires InSync(reqs, ps)
    ensures OnePerPlan(reqs)
  {
  }

  lemma SamePlanSameCountry(r: Record, r': Record)
    requires Whole(r) && Whole(r')
    ensures r.plan == r'.plan ==> (r.status == NoCountry <==> r'.status == NoCountry)
  {
  }

  lemma {:induction false} PartMembers(reqs: seq<Req>, p: Plan, n: int)
    ensures Counted(p, n) in CountryPart(reqs) <==>
              exists r :: r in reqs && IsCountry(r) && r.plan == p && r.refCnt == n
  {
    if reqs != [] {
      assert reqs == [reqs[0]] + reqs[1..];
      PartMembers(reqs[1..], p, n);
    }
  }

  predicate DistinctPlans(part: seq<Counted>) {
    part != [] ==> (forall c :: c in part[1..] ==> c.plan != part[0].plan) && DistinctPlans(part[1..])
  }

  predicate NotAmong(p: Plan, reqs: seq<Req>) {
    forall r :: r in reqs && IsCountry(r) ==> r.plan != p
  }

  lemma FirstOnePerPlan(reqs: seq<Req>)
    requires reqs != []
    ensures OnePerPlan(reqs) <==>
              OnePerPlan(reqs[1..]) && (IsCountry(reqs[0]) ==> NotAmong(reqs[0].plan, reqs[1..]))
  {
    hide IsCountry;
    var rest := reqs[1..];
    assert forall i :: 0 <= i < |rest| ==> rest[i] == reqs[i + 1] && rest[i] in rest;
    if OnePerPlan(rest) && (IsCountry(reqs[0]) ==> NotAmong(reqs[0].plan, rest)) {
      forall i, j | 0 <= i < j < |reqs| && IsCountry(reqs[i]) && IsCountry(reqs[j])
        ensures reqs[i].plan != reqs[j].plan
      {
        assert rest[j - 1] == reqs[j] && (i > 0 ==> rest[i - 1] == reqs[i]);
      }
    }
  }

  lemma {:induction false} PartOnePerPlan(reqs: seq<Req>)
    ensures OnePerPlan(reqs) <==> DistinctPlans(CountryPart(reqs))
  {
    hide IsCountry, OnePerPlan;
    if reqs == [] {
      NoneTwice();
    } else {
      var first, rest := reqs[0], reqs[1..];
      PartOnePerPlan(rest);
      FirstOnePerPlan(reqs);
      if IsCountry(first) {
        assert CountryPart(reqs)[1..] == CountryPart(rest);
        forall c | c in CountryPart(rest) ensures exists r :: r in rest && IsCountry(r) && r.plan == c.plan {
          PartMembers(rest, c.plan, c.refCnt);
        }
        forall r | r in rest && IsCountry(r) ensures exists c :: c in CountryPart(rest) && c.plan == r.plan {
          PartMembers(rest, r.plan, r.refCnt);
        }
      }
    }
  }

  lemma NoneTwice()
    ensures OnePerPlan([])
  {
  }

  /** Whether a list is in sync depends on its country-IE requests only. */
  lemma OtherKeepsSync(reqs: seq<Req>, reqs': seq<Req>, ps: seq<Plan>)
    requires InSync(reqs, ps) && CountryPart(reqs') == CountryPart(reqs)
    ensures InSync(reqs', ps)
  {
    hide IsCountry, OnePerPlan, CountryPart;
    PartOnePerPlan(reqs);
    PartOnePerPlan(reqs');
    forall r | r in reqs' && IsCountry(r) ensures r.refCnt == Count(ps, r.plan) && r.plan in CountryPlans(reqs) {
      PartMembers(reqs', r.plan, r.refCnt);
      PartMembers(reqs, r.plan, r.refCnt);
      var q :| q in reqs && IsCountry(q) && q.plan == r.plan && q.refCnt == r.refCnt;
    }
    forall p | p in CountryPlans(reqs) ensures p in CountryPlans(reqs') {
      var q :| q in reqs && IsCountry(q) && q.plan == p;
      PartMembers(reqs, p, q.refCnt);
      PartMembers(reqs', p, q.refCnt);
    }
  }

  lemma {:induction false} MarksKeepCountryPart(reqs: seq<Req>, reqs': seq<Req>)
    requires SameButMarks(reqs, reqs')
    ensures CountryPart(reqs') == CountryPart(reqs)
  {
    if reqs != [] {
      assert forall i :: 0 <= i < |reqs| - 1 ==> reqs[1..][i] == reqs[i + 1] && reqs'[1..][i] == reqs'[i + 1];
      MarksKeepCountryPart(reqs[1..], reqs'[1..]);
    }
  }

  lemma OtherStepKeepsSync(s: SyncState, s': SyncState)
    requires InSyncState(s) && OtherStep(s, s')
    ensures InSyncState(s')
  {
    hide InSync, OnePerPlan, CountryPart;
    if s'.perLink {
      OtherKeepsSync(s.reqs, s'.reqs, PlansOf(s'.links));
      SyncIsOnePerPlan(s'.reqs, PlansOf(s'.links));
    }
  }

  lemma {:induction false} PartConcat(a: seq<Req>, b: seq<Req>)
    ensures CountryPart(a + b) == CountryPart(a) + CountryPart(b)
  {
    if a == [] {
      assert a + b == b;
    } else {
      assert (a + b)[1..] == a[1..] + b;
      PartConcat(a[1..], b);
    }
  }

  /** What the user asks for leaves the country-IE requests alone. */
  lemma UserKeepsCountryPart(reqs: seq<Req>, p: Plan)
    ensures CountryPart(WithUser(reqs, p)) == CountryPart(reqs)
    ensures OnePerPlan(reqs) ==> OnePerPlan(WithUser(reqs, p))
  {
    hide OnePerPlan, CountryPart, FindUser;
    var k := FindUser(reqs);
    if k < |reqs| {
      PartUpdated(reqs, k, reqs[k].(plan := p));
    } else {
      var r := Req(REGD_SRC_RTK_PRIV, SET_BY_USER, 0, false, p);
      OtherPart(r);
      PartConcat(reqs, [r]);
    }
    PartOnePerPlan(reqs);
    PartOnePerPlan(WithUser(reqs, p));
  }

  lemma {:induction false} PartUpdated(reqs: seq<Req>, k: nat, r: Req)
    requires k < |reqs| && !IsCountry(reqs[k]) && !IsCountry(r)
    ensures CountryPart(reqs[k := r]) == CountryPart(reqs)
  {
    if k > 0 {
      PartUpdated(reqs[1..], k - 1, r);
      assert reqs[k := r][1..] == reqs[1..][k - 1 := r];
    } else {
      assert reqs[k := r][1..] == reqs[1..];
    }
  }

  lemma PartPlans(reqs: seq<Req>, reqs': seq<Req>)
    requires CountryPart(reqs') == CountryPart(reqs)
    ensures CountryPlans(reqs') == CountryPlans(reqs)
  {
    hide CountryPart;
    forall r | r in reqs && IsCountry(r) ensures r.plan in CountryPlans(reqs') {
      PartMembers(reqs, r.plan, r.refCnt);
      PartMembers(reqs', r.plan, r.refCnt);
    }
    forall r | r in reqs' && IsCountry(r) ensures r.plan in CountryPlans(reqs) {
      PartMembers(reqs, r.plan, r.refCnt);
      PartMembers(reqs', r.plan, r.refCnt);
    }
  }

  lemma OtherPart(r: Req)
    requires !IsCountry(r)
    ensures CountryPart([r]) == []
  {
    assert [r][1..] == [];
  }

  /**
   So at every point of a run in per-link intersect mode the country-IE requests are the links' plans, each
   counted, however often the mode has changed and whatever records had been collected before.
   */
  lemma {:induction false} AlwaysInSync(trace: seq<SyncState>, i: nat)
    requires Run(trace) && i < |trace|
    ensures InSyncState(trace[i]) && (trace[i].perLink ==> InSync(trace[i].reqs, PlansOf(trace[i].links)))
  {
    hide InSync, SyncStep, Initial, OnePerPlan, CountryPart;
    if i == 0 {
      InitialInSync(trace[0]);
    } else {
      AlwaysInSync(trace, i - 1);
      assert AStep(trace[i - 1], trace[i - 1 + 1]);
      if OtherStep(trace[i - 1], trace[i]) {
        OtherStepKeepsSync(trace[i - 1], trace[i]);
      } else {
        var rec :| SyncStep(trace[i - 1], trace[i], rec);
        StepKeepsSync(trace[i - 1], trace[i], rec);
      }
    }
  }
}
