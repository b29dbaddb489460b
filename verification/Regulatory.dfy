/**
 The regulatory part of struct rf_ctl_t and the functions of rtw_chplan.c that work on it in place:
 country-IE records, the request list, and the choice of the requests that apply.
 */
module Regulatory {
  import opened Common
  import opened Regd
  import opened Cisr
  import opened UserCmd

  class RfCtl {
    var reqs: seq<Req>
    var regdReqNum: u8
    const always: Always
    var regdSrc: int
    var status: Status

    /** The country of init_req. */
    var initAlpha2: Alpha2
    var disableSwChplan: bool

    const cisr: array2<Record>
    var cisEnMode: CisEnMode
    var cisEnabled: bool
    var intersect: bool
    var envBss: bool
    var effected: bool
    var effectedCont: Record

    constructor (always: Always, cisr: array2<Record>, cont: Record, status: Status, initAlpha2: Alpha2)
      ensures Valid() && reqs == [] && this.always == always && this.cisr == cisr && regdSrc == REGD_SRC_NUM
      ensures this.initAlpha2 == initAlpha2 && !disableSwChplan && cisEnMode == CisemDisable
      ensures !cisEnabled && !intersect && !envBss && !effected
    {
      this.always, this.cisr, this.effectedCont, this.status := always, cisr, cont, status;
      reqs, regdReqNum, regdSrc := [], 0, REGD_SRC_NUM;
      this.initAlpha2, disableSwChplan := initAlpha2, false;
      cisEnMode, cisEnabled, intersect, envBss, effected := CisemDisable, false, false, false, false;
    }

    /** regd_req_num is the list's length as a u8. */
    ghost predicate Numbered()
      reads this
    {
      regdReqNum == |reqs| % 256
    }

    /** And no two country-IE requests have the same plan. */
    ghost predicate Valid()
      reads this
    {
      Numbered() && OnePerPlan(reqs)
    }

    /** The records of the links before (i, j), row by row. */
    ghost function LinksBefore(i: nat, j: nat): seq<Record>
      requires i <= cisr.Length0 && j <= cisr.Length1 && (i == cisr.Length0 ==> j == 0)
      reads cisr
      decreases i, j
    {
      if j > 0 then LinksBefore(i, j - 1) + [cisr[i, j - 1]]
      else if i > 0 then LinksBefore(i - 1, cisr.Length1)
      else []
    }

    ghost function Links(): seq<Record>
      reads cisr
    {
      LinksBefore(cisr.Length0, 0)
    }

    /** The plans the country-IE requests should be made from. */
    ghost function SourcePlans(scanned: seq<Record>): seq<Plan>
      reads this, cisr
    {
      if !cisEnabled then []
      else if intersect then PlansOf(if envBss then scanned else Links())
      else if effected then [effectedCont.plan]
      else []
    }

    /** What the runs of Cisr.dfy go by. */
    ghost function Sync(): SyncState
      reads this, cisr
    {
      SyncState(reqs, Links(), cisEnabled && intersect && !envBss)
    }

    /** Overwriting records leaves every entry of the list of links as it was or makes it rec. */
    twostate lemma LinksOverwritten(new i: nat, new j: nat, new rec: Record, new samePlan: bool)
      requires i <= cisr.Length0 && j <= cisr.Length1 && (i == cisr.Length0 ==> j == 0)
      requires forall a, b :: 0 <= a < cisr.Length0 && 0 <= b < cisr.Length1 ==>
                 cisr[a, b] == old(cisr[a, b]) || (cisr[a, b] == rec && (samePlan ==> old(cisr[a, b]).plan == rec.plan))
      ensures var was, now := old(LinksBefore(i, j)), LinksBefore(i, j);
              && |now| == |was|
              && forall k :: 0 <= k < |was| ==>
                   now[k] == was[k] || (now[k] == rec && (samePlan ==> was[k].plan == rec.plan))
      decreases i, j
    {
      if j > 0 {
        LinksOverwritten(i, j - 1, rec, samePlan);
      } else if i > 0 {
        LinksOverwritten(i - 1, cisr.Length1, rec, samePlan);
      }
    }

    /** With all records as they were the list of links is too. */
    twostate lemma LinksSame(new rec: Record)
      requires forall a, b :: 0 <= a < cisr.Length0 && 0 <= b < cisr.Length1 ==> cisr[a, b] == old(cisr[a, b])
      ensures Links() == old(Links())
    {
      LinksOverwritten(cisr.Length0, 0, rec, true);
      LinksOverwritten(cisr.Length0, 0, Other(rec), true);
      assert rec != Other(rec);
    }

    ghost function Now(): Option<Record>
      reads this
    {
      if effected then Some(effectedCont) else None
    }

    /** What the user's commands go by. */
    ghost function View(): Ctl
      reads this, cisr
    {
      Ctl(reqs, regdSrc, disableSwChplan, initAlpha2, cisEnMode, CisFlags(intersect, envBss), cisEnabled,
          Links(), Now())
    }

    /**
     What every command keeps as long as the OS makes no requests: the status is Realtek's, cis_enabled is
     current, in per-link intersect mode the country-IE requests are the links' plans, and outside intersect
     mode the plan of the record in effect.
     */
    ghost predicate Settled()
      reads this, cisr
    {
      && Valid() && regdSrc == REGD_SRC_RTK_PRIV && AllRtk(reqs) && Others(reqs) != []
      && Current(View()) && InSyncState(Sync()) && InEffectOnly(View())
    }

    // ----- the request list -----

    /** rtw_regd_req_list_clear_ref_cnt_by_inr, for country IE */
    method ClearRefCnt()
      modifies `reqs
      ensures reqs == ClearRefs(old(reqs))
    {
      hide ClearRefs;
      var i := 0;
      while i < |reqs|
        invariant i <= |reqs| == |old(reqs)|
        invariant forall k :: 0 <= k < i ==> reqs[k] == ClearRefs(old(reqs))[k]
        invariant forall k :: i <= k < |reqs| ==> reqs[k] == old(reqs)[k]
      {
        if reqs[i].inr == SET_BY_COUNTRY_IE {
          reqs := reqs[i := reqs[i].(refCnt := 0)];
        }
        i := i + 1;
      }
    }

    /** The body of the loop that follows: the request behind kept goes if nothing refers to it. */
    method SweepOne(cur: nat, ghost kept: seq<Req>, ghost rest: seq<Req>) returns (gone: bool)
      requires reqs == kept + rest && rest != [] && cur == |kept| && Numbered()
      modifies `reqs, `regdReqNum
      ensures Numbered() && gone == !Stays(rest[0])
      ensures reqs == (if gone then kept else kept + [rest[0]]) + rest[1..]
    {
      hide Stays;
      NextReq(reqs, kept, rest);
      StaysIs(rest[0]);
      var req := reqs[cur];
      gone := req.inr == SET_BY_COUNTRY_IE && req.refCnt == 0;
      if gone {
        reqs := reqs[..cur] + reqs[cur + 1..];
        regdReqNum := (regdReqNum - 1) % 256;
      }
    }

    /** rtw_regd_req_list_clear_zero_ref_req_by_inr, for country IE */
    method ClearZeroRefReqs() returns (del: bool)
      requires Numbered()
      modifies `reqs, `regdReqNum
      ensures Numbered() && reqs == Sweep(old(reqs))
      ensures del <==> exists r :: r in old(reqs) && !Stays(r)
    {
      hide *;
      ghost var was := reqs;
      ghost var n: nat, kept: seq<Req>, rest, swept: nat := 0, [], reqs, 0;
      var cur := 0;
      del := false;
      SweepNothing();
      assert was[..0] == [] && [] + was == was;
      while cur < |reqs|
        invariant n <= |was| && kept == Sweep(was[..n]) && rest == was[n..]
        invariant cur == |kept| && reqs == kept + rest && Numbered()
        invariant if del then swept < n && !Stays(was[swept]) else forall k :: 0 <= k < n ==> Stays(was[k])
        decreases |was| - n
      {
        SweepStep(was, n);
        var gone := SweepOne(cur, kept, rest);
        if gone {
          del, swept := true, n;
        } else {
          cur, kept := cur + 1, kept + [rest[0]];
        }
        n, rest := n + 1, rest[1..];
      }
      SweptAll(was, n, kept, rest);
      assert del ==> was[swept] in was;
    }

    /** rtw_regd_req_list_insert */
    method InsertReq(req: Req)
      requires Numbered()
      modifies `reqs, `regdReqNum
      ensures Numbered() && reqs == old(reqs) + [req]
    {
      reqs := reqs + [req];
      regdReqNum := (regdReqNum + 1) % 256;
    }

    /** rtw_regd_req_list_add_country_ie_req, the allocation succeeding */
    method AddCountryIeReq(plan: Plan) returns (insert: bool)
      requires Numbered()
      modifies `reqs, `regdReqNum
      ensures Numbered() && reqs == AddReq(old(reqs), plan)
      ensures insert == (FindCountry(old(reqs), plan) == |old(reqs)|)
    {
      hide FindCountry;
      insert := false;
      var cur := 0;
      while cur < |reqs|
        invariant cur <= |reqs| && reqs == old(reqs) && regdReqNum == old(regdReqNum)
        invariant forall j :: 0 <= j < cur ==> !(IsCountry(reqs[j]) && reqs[j].plan == plan)
      {
        if reqs[cur].inr == SET_BY_COUNTRY_IE && reqs[cur].plan == plan {
          FindCountryIs(reqs, plan, cur);
          reqs := reqs[cur := reqs[cur].(refCnt := reqs[cur].refCnt + 1)];
          break;
        }
        cur := cur + 1;
      }
      if cur == |reqs| {
        FindCountryIs(reqs, plan, cur);
        InsertReq(Req(REGD_SRC_RTK_PRIV, SET_BY_COUNTRY_IE, 1, false, plan));
        insert := true;
      }
    }

    /** One record of the two loops that follow: was is the list when marking began, done the records so far. */
    method AddRecord(r: Record, before: bool, ghost was: seq<Req>, ghost done: seq<Record>) returns (after: bool)
      requires Numbered() && OnePerPlan(was)
      requires reqs == AddAll(ClearRefs(was), PlansOf(done)) && before == NewPlan(was, PlansOf(done))
      modifies `reqs, `regdReqNum
      ensures Numbered()
      ensures reqs == AddAll(ClearRefs(was), PlansOf(done + [r])) && after == NewPlan(was, PlansOf(done + [r]))
    {
      hide AddReq, Marked, FindCountry;
      assert (done + [r])[..|done|] == done;
      after := before;
      if r.status != NoCountry {
        ghost var ps := PlansOf(done);
        assert (ps + [r.plan])[..|ps|] == ps;
        MarkAll(was, ps);
        MarkStep(was, reqs, ps, r.plan);
        NewPlanStep(was, ps, r.plan);
        var insert := AddCountryIeReq(r.plan);
        after := before || insert;
      }
    }

    /** rtw_regd_req_list_add_country_ie_req_from_per_link_cisr */
    method AddFromPerLink(ghost was: seq<Req>) returns (effected: bool)
      requires Numbered() && OnePerPlan(was) && reqs == ClearRefs(was)
      modifies `reqs, `regdReqNum
      ensures Numbered()
      ensures reqs == AddAll(ClearRefs(was), PlansOf(Links())) && effected == NewPlan(was, PlansOf(Links()))
    {
      hide AddAll, ClearRefs, NewPlan, OnePerPlan;
      PlansOfNone(was);
      effected := false;
      var i := 0;
      while i < cisr.Length0
        invariant i <= cisr.Length0 && Numbered()
        invariant reqs == AddAll(ClearRefs(was), PlansOf(LinksBefore(i, 0)))
        invariant effected == NewPlan(was, PlansOf(LinksBefore(i, 0)))
      {
        var j := 0;
        while j < cisr.Length1
          invariant j <= cisr.Length1 && Numbered()
          invariant reqs == AddAll(ClearRefs(was), PlansOf(LinksBefore(i, j)))
          invariant effected == NewPlan(was, PlansOf(LinksBefore(i, j)))
        {
          effected := AddRecord(cisr[i, j], effected, was, LinksBefore(i, j));
          j := j + 1;
        }
        i := i + 1;
      }
    }

    /** rtw_regd_req_list_add_country_ie_req_from_scanned_network_cisr */
    method AddFromScanned(scanned: seq<Record>, ghost was: seq<Req>) returns (effected: bool)
      requires Numbered() && OnePerPlan(was) && reqs == ClearRefs(was)
      modifies `reqs, `regdReqNum
      ensures Numbered()
      ensures reqs == AddAll(ClearRefs(was), PlansOf(scanned)) && effected == NewPlan(was, PlansOf(scanned))
    {
      hide AddAll, ClearRefs, NewPlan, OnePerPlan;
      PlansOfNone(was);
      effected := false;
      var i := 0;
      while i < |scanned|
        invariant i <= |scanned| && Numbered()
        invariant reqs == AddAll(ClearRefs(was), PlansOf(scanned[..i]))
        invariant effected == NewPlan(was, PlansOf(scanned[..i]))
      {
        assert scanned[..i + 1] == scanned[..i] + [scanned[i]];
        effected := AddRecord(scanned[i], effected, was, scanned[..i]);
        i := i + 1;
      }
      assert scanned[..i] == scanned;
    }

    // ----- the country-IE records -----

    /** The links that an update is for: one link, or all of the interface's. */
    predicate InRange(alinkId: nat, j: int) {
      if alinkId < cisr.Length1 then j == alinkId else 0 <= j < cisr.Length1
    }

    /** rtw_chplan_update_per_link_cisr */
    method UpdatePerLink(ifaceId: nat, alinkId: nat, rec: Record) returns (effected: bool)
      requires ifaceId < cisr.Length0
      modifies cisr
      ensures forall i, j :: 0 <= i < cisr.Length0 && 0 <= j < cisr.Length1 ==>
                cisr[i, j] == if i == ifaceId && InRange(alinkId, j) then rec else old(cisr[i, j])
      ensures effected <==>
                exists j :: 0 <= j < cisr.Length1 && InRange(alinkId, j)
                  && if intersect then old(cisr[ifaceId, j]).plan != rec.plan else old(cisr[ifaceId, j]) != rec
    {
      var s, e := 0, cisr.Length1;
      if alinkId < cisr.Length1 {
        s, e := alinkId, alinkId + 1;
      }
      var j := s;
      while j < e && cisr[ifaceId, j] == rec
        invariant s <= j <= e && forall k :: s <= k < j ==> cisr[ifaceId, k] == rec
      {
        j := j + 1;
      }
      if j >= e {
        return false;
      }
      ghost var differs := j;
      var before := Backup(ifaceId);
      forall k | s <= k < e {
        cisr[ifaceId, k] := rec;
      }
      if intersect {
        j := s;
        while j < e && before[j].plan == rec.plan
          invariant s <= j <= e && forall k :: s <= k < j ==> before[k].plan == rec.plan
        {
          j := j + 1;
        }
        if j >= e {
          return false;
        }
        assert old(cisr[ifaceId, j]).plan != rec.plan;
      } else {
        assert old(cisr[ifaceId, differs]) != rec;
      }
      return true;
    }

    /** The copy taken of an interface's records before they are overwritten. */
    method Backup(ifaceId: nat) returns (before: seq<Record>)
      requires ifaceId < cisr.Length0
      ensures |before| == cisr.Length1 && forall k :: 0 <= k < |before| ==> before[k] == cisr[ifaceId, k]
    {
      before := [];
      var j := 0;
      while j < cisr.Length1
        invariant |before| == j <= cisr.Length1
        invariant forall k :: 0 <= k < j ==> before[k] == cisr[ifaceId, k]
      {
        before := before + [cisr[ifaceId, j]];
        j := j + 1;
      }
    }

    /** rtw_chplan_select_effected_per_link_cisr, its double loop */
    method PickPerLink() returns (best: Option<Record>)
      ensures best == Pick(Links(), Now())
    {
      best := None;
      var now, i := if effected then Some(effectedCont) else None, 0;
      while i < cisr.Length0
        invariant i <= cisr.Length0 && best == Pick(LinksBefore(i, 0), now)
      {
        var j := 0;
        while j < cisr.Length1
          invariant j <= cisr.Length1 && best == Pick(LinksBefore(i, j), now)
        {
          best := PickOne(now, best, cisr[i, j], LinksBefore(i, j));
          j := j + 1;
        }
        i := i + 1;
      }
    }

    /** rtw_chplan_select_effected_scaned_network_cisr, its loop */
    method PickScanned(scanned: seq<Record>) returns (best: Option<Record>)
      ensures best == Pick(scanned, Now())
    {
      best := None;
      var now, i := if effected then Some(effectedCont) else None, 0;
      while i < |scanned|
        invariant i <= |scanned| && best == Pick(scanned[..i], now)
      {
        assert scanned[..i + 1] == scanned[..i] + [scanned[i]];
        best := PickOne(now, best, scanned[i], scanned[..i]);
        i := i + 1;
      }
      assert scanned[..i] == scanned;
    }

    /** The common end of both: the pick takes effect; reported is a change of presence or of the plan. */
    method TakeEffect(best: Option<Record>) returns (changed: bool)
      modifies `effected, `effectedCont
      ensures Now() == best && (best == None ==> effectedCont == old(effectedCont))
      ensures changed == if old(effected) && best.Some? then old(effectedCont).plan != best.value.plan
                         else old(effected) != best.Some?
    {
      changed := effected != best.Some?;
      if best.Some? {
        if effected {
          changed := effectedCont.plan != best.value.plan;
        }
        effectedCont := best.value;
      }
      effected := best.Some?;
    }

    /** rtw_chplan_update_effected_cisr */
    method UpdateEffected(scanned: seq<Record>) returns (changed: bool)
      modifies `effected, `effectedCont
      ensures Now() == if cisEnabled && !intersect then Pick(if envBss then scanned else Links(), old(Now())) else None
      ensures changed == if old(effected) && effected then old(effectedCont).plan != effectedCont.plan
                         else old(effected) != effected
    {
      if cisEnabled && !intersect {
        var best;
        if envBss {
          best := PickScanned(scanned);
        } else {
          best := PickPerLink();
        }
        changed := TakeEffect(best);
      } else {
        changed := effected;
        effected := false;
      }
    }

    /** The mark and sweep phase of rtw_chplan_rtk_priv_req_prehdl_country_ie. */
    method MarkAndSweepReqs(scanned: seq<Record>) returns (eff: bool)
      requires Valid()
      modifies `reqs, `regdReqNum
      ensures Valid() && reqs == Reconcile(old(reqs), SourcePlans(scanned))
      ensures eff == (CountryPlans(old(reqs)) != CountryPlans(reqs))
    {
      hide Sweep, AddAll, ClearRefs, OnePerPlan, CountryPlans, Stays;
      ghost var was, ps := reqs, SourcePlans(scanned);
      MarkAndSweep(was, ps);
      PlansOfNone(was);
      ClearRefCnt();
      eff := false;
      if cisEnabled {
        if intersect {
          if envBss {
            eff := AddFromScanned(scanned, was);
          } else {
            eff := AddFromPerLink(was);
          }
        } else if effected {
          AddOne(was, effectedCont.plan);
          eff := AddCountryIeReq(effectedCont.plan);
        }
      }
      var del := ClearZeroRefReqs();
      eff := eff || del;
    }

    /** rtw_chplan_rtk_priv_req_prehdl_country_ie; marked: the mark phase was reached and the settings are done with. */
    method PrehdlCountryIe(hasCisr: bool, ifaceId: nat, alinkId: nat, rec: Record, confsChange: bool,
                           scanned: seq<Record>)
      returns (eff: bool, marked: bool)
      requires Valid() && ifaceId < cisr.Length0
      modifies `reqs, `regdReqNum, `effected, `effectedCont, cisr
      ensures Valid()
      ensures forall i, j :: 0 <= i < cisr.Length0 && 0 <= j < cisr.Length1 ==>
                cisr[i, j] == if hasCisr && i == ifaceId && InRange(alinkId, j) then rec else old(cisr[i, j])
      ensures if marked then reqs == Reconcile(old(reqs), SourcePlans(scanned))
                             && eff == (CountryPlans(old(reqs)) != CountryPlans(reqs))
              else reqs == old(reqs) && !eff
      ensures Others(reqs) == Others(old(reqs)) && (old(AllRtk(reqs)) ==> AllRtk(reqs))
      ensures var goesOn := || !hasCisr || confsChange
                            || exists j :: 0 <= j < cisr.Length1 && InRange(alinkId, j)
                                 && if intersect then old(cisr[ifaceId, j]).plan != rec.plan
                                    else old(cisr[ifaceId, j]) != rec;
              && Now() == (if !goesOn then old(Now())
                           else if cisEnabled && !intersect then Pick(if envBss then scanned else Links(), old(Now()))
                           else None)
              && marked == (goesOn && (intersect || confsChange || PlanInEffect(old(Now())) != PlanInEffect(Now())))
      ensures (hasCisr ==> Whole(rec)) ==> SyncStep(old(Sync()), Sync(), rec)
    {
      hide OnePerPlan, CountryPlans, Reconcile, Whole, PlansOf, Pick, Others, AllRtk;
      ghost var was := reqs;
      eff, marked := false, false;
      if hasCisr {
        var perLink := UpdatePerLink(ifaceId, alinkId, rec);
        if !perLink && !confsChange {
          LinksOverwritten(cisr.Length0, 0, rec, intersect);
          return;
        }
      }
      LinksOverwritten(cisr.Length0, 0, rec, false);
      var changed := UpdateEffected(scanned);
      if !changed && !intersect && !confsChange {
        return;
      }
      marked := true;
      StillOnePerPlan();
      MarkAndSweep(was, SourcePlans(scanned));
      ReconciledIsRtk(was, SourcePlans(scanned));
      eff := MarkAndSweepReqs(scanned);
    }

    /** The end of rtw_rfctl_decide_init_chplan: the initial request and its status, while there are no records yet. */
    method InitReq(plan: Plan, disable: bool)
      requires reqs == [] && Now() == None && forall r :: r in Links() ==> r.status == NoCountry && r.plan == NO_PLAN
      modifies this
      ensures Settled() && reqs == [Req(REGD_SRC_RTK_PRIV, SET_BY_INIT, 0, true, plan)]
      ensures status == StatusOf(reqs[0]) && initAlpha2 == plan.alpha2 && disableSwChplan == disable
      ensures CisFlags(intersect, envBss) == old(CisFlags(intersect, envBss)) && cisEnMode == old(cisEnMode)
    {
      hide Configured, CisEnables, InSyncState;
      var r := Req(REGD_SRC_RTK_PRIV, SET_BY_INIT, 0, true, plan);
      reqs, regdReqNum := [r], 1;
      disableSwChplan, initAlpha2 := disable, plan.alpha2;
      regdSrc, status := REGD_SRC_RTK_PRIV, StatusOf(r);
      UpdateCisEnabled();
      InitialInSync(Sync());
    }

    // ----- settings of the user -----

    /**
     rtw_rfctl_should_cis_enable: country elements count under Realtek requests, in one of the modes only
     if the user or else the initial plan is the worldwide one.
     */
    predicate ShouldCisEnable()
      reads this
    {
      CisEnables(regdSrc, disableSwChplan, cisEnMode, Configured(reqs, initAlpha2))
    }

    /** rtw_rfctl_update_cis_enabled */
    method UpdateCisEnabled()
      modifies `cisEnabled
      ensures cisEnabled == ShouldCisEnable()
      ensures cisEnabled <==>
                && regdSrc == REGD_SRC_RTK_PRIV && !disableSwChplan
                && (cisEnMode == CisemEnable || (cisEnMode == CisemEnableWw && Configured(reqs, initAlpha2) == "00"))
    {
      var enabled := ShouldCisEnable();
      if cisEnabled != enabled {
        cisEnabled := enabled;
      }
    }

    /** The part of rtw_chplan_rtk_priv_req_prehdl_user that changes the user's request. */
    method SetUserReq(plan: Plan) returns (changed: bool)
      requires Valid()
      modifies `reqs, `regdReqNum
      ensures Valid() && reqs == WithUser(old(reqs), plan) && changed == (reqs != old(reqs))
    {
      hide OnePerPlan;
      UserKeepsCountryPart(reqs, plan);
      var k := FindUser(reqs);
      if k == |reqs| {
        InsertReq(Req(REGD_SRC_RTK_PRIV, SET_BY_USER, 0, false, plan));
        return true;
      }
      changed := reqs[k].plan != plan;
      if changed {
        assert old(reqs)[k].plan != plan;
        reqs := reqs[k := reqs[k].(plan := plan)];
      }
    }

    /** The settings that rtw_chplan_rtk_priv_req_prehdl_confs makes, of those that matter here. */
    method SetConfs(enMode: Option<CisEnMode>, flags: Option<CisFlags>) returns (modeSet: bool, flagsSet: bool)
      modifies `cisEnMode, `intersect, `envBss
      ensures cisEnMode == if enMode.Some? then enMode.value else old(cisEnMode)
      ensures CisFlags(intersect, envBss) == if flags.Some? then flags.value else old(CisFlags(intersect, envBss))
      ensures modeSet == (cisEnMode != old(cisEnMode))
      ensures flagsSet == (CisFlags(intersect, envBss) != old(CisFlags(intersect, envBss)))
    {
      modeSet, flagsSet := enMode.Some? && enMode.value != cisEnMode, false;
      if modeSet {
        cisEnMode := enMode.value;
      }
      if flags.Some? {
        flagsSet := flags.value != CisFlags(intersect, envBss);
        intersect, envBss := flags.value.intersect, flags.value.envBss;
      }
    }

    /**
     rtw_chplan_req_prehdl for a request of the user. The request is stored in any case; eff says if the
     caller goes on to select requests and apply them.
     */
    method PrehdlUser(u: Command, ifaceId: nat, scanned: seq<Record>) returns (eff: bool)
      requires Valid() && ifaceId < cisr.Length0
      modifies `reqs, `regdReqNum, `effected, `effectedCont, `cisEnMode, `cisEnabled, `intersect, `envBss, cisr
      ensures Valid()
      ensures Outcome(old(View()), u, scanned, View(), eff)
      ensures old(AllRtk(reqs)) ==> AllRtk(reqs)
      ensures exists mid, rec :: OtherStep(old(Sync()), mid) && SyncStep(mid, Sync(), rec)
    {
      hide OnePerPlan, CountryPart, Reconcile, PlansOf, WithUser, Pick, SyncStep, OtherStep, Others, CountryPlans;
      hide PlansAfter, InEffectAfter, AllRtk, Configured, CisEnables, Asked, Outcome, ModeSet, FlagsSet;
      ghost var c, start, rec := View(), Sync(), effectedCont;
      var userSet, modeSet, flagsSet := UserSettings(u);
      AskedKeeps(c, u);
      ghost var mid := SyncState(reqs, Links(), start.perLink);
      StillOnePerPlan();
      UserStep(start, mid, rec);
      if !userSet && !modeSet && !flagsSet && !u.others {
        WithoutHandler(c, u, scanned);
        assert Sync() == mid;
        return false;
      }
      var wasEnabled := cisEnabled;
      UpdateCisEnabled();
      eff := true;
      if flagsSet || wasEnabled != cisEnabled {
        eff := UserHandled(u, modeSet || flagsSet, ifaceId, scanned, c, mid, rec);
      } else {
        WithoutHandler(c, u, scanned);
        assert Sync() == mid;
      }
      assert SyncStep(mid, Sync(), rec);
    }

    /** The branch that calls the country-IE handler; c is the state before the command, mid that after its settings. */
    method UserHandled(u: Command, settings: bool, ifaceId: nat, scanned: seq<Record>,
                       ghost c: Ctl, ghost mid: SyncState, ghost rec: Record) returns (eff: bool)
      requires Valid() && ifaceId < cisr.Length0
      requires View() == Asked(c, u).(enabled := EnabledAfter(c, u)) && CountryPlans(reqs) == CountryPlans(c.reqs)
      requires HandlerRuns(c, u) && settings == (ModeSet(c, u) || FlagsSet(c, u))
      requires mid.reqs == reqs && mid.links == Links()
      modifies `reqs, `regdReqNum, `effected, `effectedCont, cisr
      ensures Valid() && Outcome(c, u, scanned, View(), eff) && SyncStep(mid, Sync(), rec)
      ensures old(AllRtk(reqs)) ==> AllRtk(reqs)
    {
      hide OnePerPlan, CountryPart, Reconcile, PlansOf, WithUser, Pick, SyncStep, OtherStep, Others, CountryPlans;
      hide PlansAfter, InEffectAfter, AllRtk, Configured, CisEnables, Asked, Outcome, ModeSet, FlagsSet;
      hide HandlerRuns, EnabledAfter, Sources;
      AskedKeeps(c, u);
      var handled := UserCountryIe(settings, ifaceId, scanned);
      WithHandler(c, u, scanned, View(), handled);
      StillOnePerPlan();
      ModeStep(mid, Sync(), rec);
      eff := handled || u.others;
    }

    /** rtw_chplan_rtk_priv_req_prehdl_user, of the settings those that matter here */
    method UserSettings(u: Command) returns (userSet: bool, modeSet: bool, flagsSet: bool)
      requires Valid()
      modifies `reqs, `regdReqNum, `cisEnMode, `intersect, `envBss
      ensures Valid() && View() == Asked(old(View()), u)
      ensures CountryPart(reqs) == CountryPart(old(reqs)) && CountryPlans(reqs) == CountryPlans(old(reqs))
      ensures old(AllRtk(reqs)) ==> AllRtk(reqs)
      ensures userSet == (reqs != old(reqs))
      ensures modeSet == ModeSet(old(View()), u) && flagsSet == FlagsSet(old(View()), u)
    {
      hide OnePerPlan, CountryPart, WithUser, CountryPlans, AllRtk;
      userSet, modeSet, flagsSet := false, u.enMode.Some?, u.flags.Some?;
      if u.valid {
        if u.plan.Some? {
          UserKeepsCountryPart(reqs, u.plan.value);
          PartPlans(reqs, WithUser(reqs, u.plan.value));
          UserIsRtk(reqs, u.plan.value);
          userSet := SetUserReq(u.plan.value);
        }
        modeSet, flagsSet := SetConfs(u.enMode, u.flags);
      }
    }

    /** The call of the country-IE handler that follows; settings that it is done with no longer count as changes. */
    method UserCountryIe(settings: bool, ifaceId: nat, scanned: seq<Record>) returns (handled: bool)
      requires Valid() && ifaceId < cisr.Length0
      modifies `reqs, `regdReqNum, `effected, `effectedCont, cisr
      ensures Valid() && Links() == old(Links()) && Others(reqs) == Others(old(reqs))
      ensures var flags := CisFlags(intersect, envBss);
              var sources := Sources(flags, scanned, old(Links()));
              && Now() == InEffectAfter(cisEnabled, flags, sources, old(Now()))
              && CountryPlans(reqs) ==
                   PlansAfter(CountryPlans(old(reqs)), settings, cisEnabled, flags, sources, old(Now()))
      ensures handled == (CountryPlans(reqs) != CountryPlans(old(reqs)))
      ensures old(AllRtk(reqs)) ==> AllRtk(reqs)
      ensures cisEnabled && intersect && !envBss ==> reqs == Reconcile(old(reqs), PlansOf(Links()))
    {
      hide OnePerPlan, CountryPart, Reconcile, PlansOf, Pick, SyncStep, Others, CountryPlans, SourcePlans, AllRtk;
      ghost var rec, was := effectedCont, reqs;
      StillOnePerPlan();
      var marked;
      handled, marked := PrehdlCountryIe(false, ifaceId, 0, effectedCont, settings, scanned);
      LinksSame(rec);
      MarkAndSweep(was, SourcePlans(scanned));
      SyncPlans(Reconcile(was, SourcePlans(scanned)), SourcePlans(scanned));
      SourcesMarked(scanned);
      PerLinkPlans(scanned);
      handled := handled || (settings && !marked);
    }

    /** The mark phase goes by these plans. */
    lemma SourcesMarked(scanned: seq<Record>)
      ensures var flags := CisFlags(intersect, envBss);
              Plans(SourcePlans(scanned)) == PlansMarked(cisEnabled, flags, Sources(flags, scanned, Links()), Now())
    {
    }

    /** After a call of the handler, c being the state before, country-IE requests and record in effect still agree. */
    lemma HandledStaysInEffect(c: Ctl, scanned: seq<Record>, marked: bool)
      requires InEffectOnly(c) && OnePerPlan(c.reqs) && View() == c.(reqs := reqs, links := Links(), now := Now())
      requires reqs == if marked then Reconcile(c.reqs, SourcePlans(scanned)) else c.reqs
      requires
        || (Now() == c.now && !marked)
        || (&& Now() == InEffectAfter(c.enabled, c.flags, Sources(c.flags, scanned, Links()), c.now)
            && marked == (intersect || PlanInEffect(c.now) != PlanInEffect(Now())))
      ensures InEffectOnly(View())
    {
      hide OnePerPlan, Reconcile, PlansOf, Pick, CountryPlans, SourcePlans, InEffectOnly, InEffectAfter;
      MarkAndSweep(c.reqs, SourcePlans(scanned));
      SyncPlans(Reconcile(c.reqs, SourcePlans(scanned)), SourcePlans(scanned));
      SourcesMarked(scanned);
      var same := Now() == c.now && !marked;
      HandledInEffect(c, View(), !same, Sources(c.flags, scanned, Links()));
    }

    lemma PerLinkPlans(scanned: seq<Record>)
      ensures cisEnabled && intersect && !envBss ==> SourcePlans(scanned) == PlansOf(Links())
    {
    }

    lemma StillOnePerPlan()
      requires Valid()
      ensures OnePerPlan(reqs)
    {
    }

    // ----- which requests apply -----

    /** applied_src, decided by the first loop */
    method HighestSrc() returns (src: int)
      ensures TopSrc(reqs, src)
    {
      src := REGD_SRC_NUM;
      var i := 0;
      while i < |reqs|
        invariant i <= |reqs|
        invariant i == 0 ==> src == REGD_SRC_NUM
        invariant i > 0 ==> exists k :: 0 <= k < i && reqs[k].src == src
        invariant i > 0 ==> forall k :: 0 <= k < i ==> reqs[k].src <= src
      {
        if src == REGD_SRC_NUM || reqs[i].src > src {
          src := reqs[i].src;
          assert reqs[i].src == src;
        }
        i := i + 1;
      }
    }

    /** applied_inr, decided by the second loop */
    method HighestInr(src: int) returns (inr: int)
      requires TopSrc(reqs, src)
      ensures TopInr(reqs, src, inr)
    {
      inr := SET_BY_NUM;
      var i := 0;
      while i < |reqs|
        invariant i <= |reqs|
        invariant inr == SET_BY_NUM ==> forall k :: 0 <= k < i ==> reqs[k].src != src
        invariant inr != SET_BY_NUM ==>
                    && (exists k :: 0 <= k < i && reqs[k].src == src && reqs[k].inr == inr)
                    && forall k :: 0 <= k < i && reqs[k].src == src ==> reqs[k].inr <= inr
      {
        if reqs[i].src == src && (inr == SET_BY_NUM || reqs[i].inr > inr) {
          inr := reqs[i].inr;
          assert reqs[i].src == src && reqs[i].inr == inr;
        }
        i := i + 1;
      }
    }

    /** The body of the third loop: mark request i and, if it applies, add it to the status. */
    method SelectOne(i: nat, appliedSrc: int, appliedInr: int, ghost was: seq<Req>)
      requires i < |reqs| == |was| && reqs[i] == was[i]
      requires TopSrc(was, appliedSrc) && TopInr(was, appliedSrc, appliedInr)
      requires var rs := AppliedIn(was[..i], was, always);
               rs != [] ==> regdSrc == appliedSrc && status == Summary(rs)
      requires AppliedIn(was[..i], was, always) == [] ==> regdSrc == REGD_SRC_NUM
      modifies `reqs, `regdSrc, `status
      ensures reqs == old(reqs)[i := was[i].(applied := Applies(was, always, was[i]))]
      ensures var rs := AppliedIn(was[..i + 1], was, always);
              if rs == []
              then AppliedIn(was[..i], was, always) == [] && regdSrc == REGD_SRC_NUM && status == old(status)
              else regdSrc == appliedSrc && status == Summary(rs)
    {
      hide Applies, StatusOf, Folded, TopSrc, TopInr;
      AppliesIff(was, always, appliedSrc, appliedInr, i);
      assert was[..i + 1][..i] == was[..i];
      var req := reqs[i];
      if appliedSrc != req.src {
        reqs := reqs[i := req.(applied := false)];
        return;
      }
      var applied := appliedInr == req.inr
                     || (req.inr == SET_BY_INIT && always.init) || (req.inr == SET_BY_USER && always.user);
      reqs := reqs[i := req.(applied := applied)];
      if !applied {
        return;
      }
      ghost var rs := AppliedIn(was[..i], was, always);
      assert (rs + [req])[..|rs|] == rs;
      if regdSrc == REGD_SRC_NUM {
        status := StatusOf(req);
        regdSrc := req.src;
      } else if regdSrc == req.src {
        status := Folded(status, req);
      }
    }

    /** The three loops of rtw_rfctl_regd_req_sel_and_status_update. */
    method SelectReqs()
      modifies `reqs, `regdSrc, `status
      ensures reqs != [] ==> InForce(reqs) != [] && status == Summary(InForce(reqs))
      ensures |reqs| == |old(reqs)|
      ensures forall k :: 0 <= k < |reqs| ==>
                reqs[k] == old(reqs)[k].(applied := Applies(old(reqs), always, old(reqs)[k]))
      ensures reqs == [] ==> regdSrc == REGD_SRC_NUM && status == old(status)
      ensures reqs != [] ==> var rs := Applied(old(reqs), always);
                             rs != [] && status == Summary(rs) && TopSrc(old(reqs), regdSrc)
    {
      hide Applies, Summary, AppliedIn, TopSrc, TopInr;
      var appliedSrc := HighestSrc();
      var appliedInr := HighestInr(appliedSrc);
      ghost var was, n := reqs, |reqs|;
      assert was[..0] == [];
      NoneApplied(was, always);
      regdSrc := REGD_SRC_NUM;
      var i := 0;
      while i < |reqs|
        invariant i <= |reqs| == n
        invariant forall k :: 0 <= k < i ==> reqs[k] == was[k].(applied := Applies(was, always, was[k]))
        invariant forall k :: i <= k < n ==> reqs[k] == was[k]
        invariant var rs := AppliedIn(was[..i], was, always);
                  if rs == [] then regdSrc == REGD_SRC_NUM && status == old(status)
                  else regdSrc == appliedSrc && status == Summary(rs)
      {
        SelectOne(i, appliedSrc, appliedInr, was);
        i := i + 1;
      }
      assert was[..n] == was;
      if n > 0 {
        SummaryOfMarked(was, reqs, always);
      }
    }

    /** rtw_rfctl_regd_req_sel_and_status_update */
    method SelAndStatusUpdate()
      modifies `reqs, `regdSrc, `status, `cisEnabled
      ensures |reqs| == |old(reqs)|
      ensures forall k :: 0 <= k < |reqs| ==>
                reqs[k] == old(reqs)[k].(applied := Applies(old(reqs), always, old(reqs)[k]))
      ensures reqs == [] ==> regdSrc == REGD_SRC_NUM && status == old(status)
      ensures reqs != [] ==> var rs := Applied(old(reqs), always);
                             rs != [] && status == Summary(rs) && TopSrc(old(reqs), regdSrc)
      ensures reqs != [] ==> InForce(reqs) != [] && status == Summary(InForce(reqs))
      ensures cisEnabled == ShouldCisEnable()
      ensures cisEnabled <==>
                && regdSrc == REGD_SRC_RTK_PRIV && !disableSwChplan
                && (cisEnMode == CisemEnable || (cisEnMode == CisemEnableWw && Configured(reqs, initAlpha2) == "00"))
      ensures old(Valid()) && (cisEnabled ==> old(cisEnabled)) ==> Valid() && OtherStep(old(Sync()), Sync())
    {
      hide Applies, Summary, AppliedIn, InForce, TopSrc, OnePerPlan, CountryPart, ShouldCisEnable;
      SelectReqs();
      MarksKeepCountryPart(old(reqs), reqs);
      PartOnePerPlan(old(reqs));
      PartOnePerPlan(reqs);
      UpdateCisEnabled();
    }
  }

  lemma UserStep(s: SyncState, s': SyncState, rec: Record)
    requires s'.links == s.links && s'.perLink == s.perLink
    requires CountryPart(s'.reqs) == CountryPart(s.reqs) && OnePerPlan(s'.reqs)
    ensures OtherStep(s, s') && SyncStep(s', s', rec)
  {
  }

  /** A mode that is entered with the mark phase is entered by a step of the runs. */
  lemma ModeStep(s: SyncState, s': SyncState, rec: Record)
    requires s'.links == s.links && OnePerPlan(s'.reqs)
    requires s'.perLink ==> s'.reqs == Reconcile(s.reqs, PlansOf(s'.links))
    ensures SyncStep(s, s', rec)
  {
  }

  lemma AskedKeeps(c: Ctl, u: Command)
    ensures var a := Asked(c, u);
            && a == c.(reqs := a.reqs, mode := a.mode, flags := a.flags)
            && (!FlagsSet(c, u) ==> a.flags == c.flags)
  {
  }

  lemma SyncPlans(reqs: seq<Req>, ps: seq<Plan>)
    requires InSync(reqs, ps)
    ensures CountryPlans(reqs) == Plans(ps)
  {
  }

  // ----- what selecting requests leaves alone -----

  predicate AllRtk(reqs: seq<Req>) {
    forall r :: r in reqs ==> r.src == REGD_SRC_RTK_PRIV
  }

  lemma UserIsRtk(reqs: seq<Req>, p: Plan)
    ensures AllRtk(reqs) ==> AllRtk(WithUser(reqs, p))
  {
  }

  lemma {:induction false} AddedIsRtk(reqs: seq<Req>, ps: seq<Plan>)
    requires AllRtk(reqs)
    ensures AllRtk(AddAll(reqs, ps))
    decreases |ps|
  {
    if ps != [] {
      AddedIsRtk(reqs, ps[..|ps| - 1]);
    }
  }

  lemma ReconciledIsRtk(reqs: seq<Req>, ps: seq<Plan>)
    ensures AllRtk(reqs) ==> AllRtk(Reconcile(reqs, ps))
  {
    if AllRtk(reqs) {
      AddedIsRtk(ClearRefs(reqs), ps);
      SweepMembers(AddAll(ClearRefs(reqs), ps));
    }
  }

  lemma MarksKeepOthers(reqs: seq<Req>, reqs': seq<Req>, initAlpha2: Alpha2)
    requires SameButMarks(reqs, reqs')
    ensures |Others(reqs')| == |Others(reqs)| && (AllRtk(reqs) ==> AllRtk(reqs'))
    ensures Configured(reqs', initAlpha2) == Configured(reqs, initAlpha2)
  {
    hide Others, FindUser;
    OthersMarked(reqs, reqs');
    if FindUser(reqs) < |reqs| {
      FindUserIs(reqs', FindUser(reqs));
    }
    assert forall i :: 0 <= i < |reqs| ==> reqs[i] in reqs;
  }

  lemma {:induction false} OthersMarked(reqs: seq<Req>, reqs': seq<Req>)
    requires SameButMarks(reqs, reqs')
    ensures |Others(reqs')| == |Others(reqs)|
  {
    if reqs != [] {
      assert forall i :: 0 <= i < |reqs| - 1 ==> reqs[1..][i] == reqs[i + 1] && reqs'[1..][i] == reqs'[i + 1];
      OthersMarked(reqs[1..], reqs'[1..]);
    }
  }

  function Other(r: Record): Record {
    r.(opch := if r.opch == 0 then 1 else 0)
  }

  lemma NextReq(reqs: seq<Req>, kept: seq<Req>, rest: seq<Req>)
    requires reqs == kept + rest && rest != []
    ensures |kept| < |reqs| && reqs[|kept|] == rest[0]
    ensures reqs[..|kept|] + reqs[|kept| + 1..] == kept + rest[1..]
    ensures reqs == (kept + [rest[0]]) + rest[1..]
  {
  }

  lemma StaysIs(r: Req)
    ensures Stays(r) == !(r.inr == SET_BY_COUNTRY_IE && r.refCnt == 0)
  {
  }

  /** The body of both loops that look for the record to take effect. */
  method PickOne(now: Option<Record>, best: Option<Record>, r: Record, ghost before: seq<Record>)
    returns (next: Option<Record>)
    requires best == Pick(before, now)
    ensures next == Pick(before + [r], now)
  {
    assert (before + [r])[..|before|] == before;
    next := best;
    if r.status != NoCountry {
      if best == None || Better(now, best.value, r) {
        next := Some(r);
      }
    }
  }

  /** src is the highest source, REGD_SRC_NUM if there is no request. */
  predicate TopSrc(reqs: seq<Req>, src: int) {
    if reqs == [] then src == REGD_SRC_NUM
    else (exists r :: r in reqs && r.src == src) && forall r :: r in reqs ==> r.src <= src
  }

  predicate TopInr(reqs: seq<Req>, src: int, inr: int) {
    if reqs == [] then inr == SET_BY_NUM
    else
      && (exists r :: r in reqs && r.src == src && r.inr == inr)
      && (forall r :: r in reqs && r.src == src ==> r.inr <= inr)
  }

  lemma AppliesIff(reqs: seq<Req>, always: Always, src: int, inr: int, i: nat)
    requires i < |reqs| && TopSrc(reqs, src) && TopInr(reqs, src, inr)
    ensures src < REGD_SRC_NUM
    ensures Applies(reqs, always, reqs[i]) ==
              (&& reqs[i].src == src
               && (|| inr == reqs[i].inr || (reqs[i].inr == SET_BY_INIT && always.init)
                   || (reqs[i].inr == SET_BY_USER && always.user)))
  {
    assert reqs[i] in reqs;
  }

  lemma NoneApplied(reqs: seq<Req>, always: Always)
    ensures AppliedIn([], reqs, always) == []
  {
  }

  lemma AddOne(reqs: seq<Req>, p: Plan)
    ensures AddAll(ClearRefs(reqs), [p]) == AddReq(ClearRefs(reqs), p)
    ensures NewPlan(reqs, [p]) == (FindCountry(ClearRefs(reqs), p) == |ClearRefs(reqs)|)
  {
    hide ClearRefs, AddReq;
    assert [p][..0] == [];
    assert AddAll(ClearRefs(reqs), []) == ClearRefs(reqs);
    PlansCleared(reqs);
    FoundIff(ClearRefs(reqs), p);
    assert p in [p];
  }

  predicate NewPlan(reqs: seq<Req>, ps: seq<Plan>) {
    exists p :: p in ps && p !in CountryPlans(reqs)
  }

  lemma PlansOfNone(reqs: seq<Req>)
    ensures PlansOf([]) == [] && AddAll(ClearRefs(reqs), []) == ClearRefs(reqs) && !NewPlan(reqs, [])
  {
  }

  lemma NewPlanStep(reqs: seq<Req>, ps: seq<Plan>, p: Plan)
    ensures NewPlan(reqs, ps + [p]) <==> NewPlan(reqs, ps) || p !in CountryPlans(reqs) + Plans(ps)
  {
    hide CountryPlans;
    assert p in ps + [p];
    if NewPlan(reqs, ps) {
      var q :| q in ps && q !in CountryPlans(reqs);
      assert q in ps + [p];
    }
  }

  lemma SweptAll(was: seq<Req>, n: nat, kept: seq<Req>, rest: seq<Req>)
    requires n <= |was| && rest == was[n..] && |kept + rest| <= |kept|
    ensures n == |was| && was[..n] == was && kept + rest == kept
  {
  }

  lemma SweepNothing()
    ensures Sweep([]) == []
  {
  }

  lemma {:induction false} SweepSnoc(reqs: seq<Req>, r: Req)
    ensures Sweep(reqs + [r]) == if Stays(r) then Sweep(reqs) + [r] else Sweep(reqs)
  {
    if reqs == [] {
      assert Sweep([r]) == if Stays(r) then [r] + Sweep([]) else Sweep([]);
    } else {
      SweepSnoc(reqs[1..], r);
      assert (reqs + [r])[1..] == reqs[1..] + [r];
    }
  }

  lemma SweepStep(reqs: seq<Req>, n: nat)
    requires n < |reqs|
    ensures Sweep(reqs[..n + 1]) == if Stays(reqs[n]) then Sweep(reqs[..n]) + [reqs[n]] else Sweep(reqs[..n])
    ensures reqs[n..] != [] && reqs[n..][0] == reqs[n] && reqs[n..][1..] == reqs[n + 1..]
  {
    SweepSnoc(reqs[..n], reqs[n]);
    assert reqs[..n + 1] == reqs[..n] + [reqs[n]];
  }
}
