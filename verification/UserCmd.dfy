/**
 A regulatory command of the user as values: what rtw_chplan_req_prehdl makes of the request list and the
 country-IE state, and whether the command is put into effect.
 */
module UserCmd {
  import opened Common
  import opened Regd
  import opened Cisr

  /** enum country_ie_slave_en_mode */
  datatype CisEnMode = CisemDisable | CisemEnable | CisemEnableWw

  /** cis_flags: whether all records count or the one in effect, and whether scanned networks or links are gone by. */
  datatype CisFlags = CisFlags(intersect: bool, envBss: bool)

  /** The fields of struct rf_ctl_t that matter here; links are the per-link records. */
  datatype Ctl = Ctl(
    reqs: seq<Req>, src: int, disabled: bool, initAlpha2: Alpha2, mode: CisEnMode, flags: CisFlags,
    enabled: bool, links: seq<Record>, now: Option<Record>)

  /**
   What the user asks for: a plan, settings of the country-IE mode and flags, and whether some other setting
   changes. valid says whether the domain codes were.
   */
  datatype Command = Command(
    valid: bool, plan: Option<Plan>, enMode: Option<CisEnMode>, flags: Option<CisFlags>, others: bool)

  function PlanOnly(p: Plan): Command {
    Command(true, Some(p), None, None, false)
  }

  /** rtw_rfctl_should_cis_enable, alpha2 being the configured country */
  predicate CisEnables(src: int, disabled: bool, mode: CisEnMode, alpha2: Alpha2) {
    && src == REGD_SRC_RTK_PRIV && !disabled
    && (mode == CisemEnable || (mode == CisemEnableWw && alpha2 == WORLDWIDE_ALPHA2))
  }

  /** The country of the user's request, or else the initial one. */
  function Configured(reqs: seq<Req>, initAlpha2: Alpha2): Alpha2 {
    var k := FindUser(reqs);
    if k < |reqs| then reqs[k].plan.alpha2 else initAlpha2
  }

  /** cis_enabled is what it should be. */
  predicate Current(c: Ctl) {
    c.enabled == CisEnables(c.src, c.disabled, c.mode, Configured(c.reqs, c.initAlpha2))
  }

  // ----- the country-IE handler without a record -----

  function Sources(flags: CisFlags, scanned: seq<Record>, links: seq<Record>): seq<Record> {
    if flags.envBss then scanned else links
  }

  function PlanInEffect(r: Option<Record>): Option<Plan> {
    match r
    case None => None
    case Some(rec) => Some(rec.plan)
  }

  /** The record in effect afterwards. */
  function InEffectAfter(enabled: bool, flags: CisFlags, sources: seq<Record>, now: Option<Record>): Option<Record> {
    if enabled && !flags.intersect then Pick(sources, now) else None
  }

  /** The plans that the mark phase leaves. */
  function PlansMarked(enabled: bool, flags: CisFlags, sources: seq<Record>, later: Option<Record>): set<Plan> {
    if !enabled then {}
    else if flags.intersect then Plans(PlansOf(sources))
    else if later.Some? then {later.value.plan}
    else {}
  }

  /** The plans of country-IE requests afterwards: the mark phase may be skipped. */
  function PlansAfter(plans: set<Plan>, settings: bool, enabled: bool, flags: CisFlags, sources: seq<Record>,
                      now: Option<Record>): set<Plan>
  {
    var later := InEffectAfter(enabled, flags, sources, now);
    if flags.intersect || settings || PlanInEffect(now) != PlanInEffect(later)
    then PlansMarked(enabled, flags, sources, later)
    else plans
  }

  // ----- the whole command -----

  /** Request and settings as asked for. */
  function Asked(c: Ctl, u: Command): Ctl {
    if !u.valid then c
    else c.(
      reqs := if u.plan.Some? then WithUser(c.reqs, u.plan.value) else c.reqs,
      mode := if u.enMode.Some? then u.enMode.value else c.mode,
      flags := if u.flags.Some? then u.flags.value else c.flags)
  }

  /** Settings that come with an invalid code are not made, but count as changes. */
  predicate ModeSet(c: Ctl, u: Command) {
    u.enMode.Some? && (u.valid ==> u.enMode.value != c.mode)
  }

  predicate FlagsSet(c: Ctl, u: Command) {
    u.flags.Some? && (u.valid ==> u.flags.value != c.flags)
  }

  predicate AnySet(c: Ctl, u: Command) {
    Asked(c, u).reqs != c.reqs || ModeSet(c, u) || FlagsSet(c, u) || u.others
  }

  predicate EnabledAfter(c: Ctl, u: Command) {
    var a := Asked(c, u);
    if AnySet(c, u) then CisEnables(c.src, c.disabled, a.mode, Configured(a.reqs, c.initAlpha2)) else c.enabled
  }

  predicate HandlerRuns(c: Ctl, u: Command) {
    AnySet(c, u) && (FlagsSet(c, u) || EnabledAfter(c, u) != c.enabled)
  }

  function PlansLeft(c: Ctl, u: Command, scanned: seq<Record>): set<Plan> {
    var flags := Asked(c, u).flags;
    if HandlerRuns(c, u)
    then PlansAfter(CountryPlans(c.reqs), ModeSet(c, u) || FlagsSet(c, u), EnabledAfter(c, u), flags,
                    Sources(flags, scanned, c.links), c.now)
    else CountryPlans(c.reqs)
  }

  function InEffectLeft(c: Ctl, u: Command, scanned: seq<Record>): Option<Record> {
    var flags := Asked(c, u).flags;
    if HandlerRuns(c, u)
    then InEffectAfter(EnabledAfter(c, u), flags, Sources(flags, scanned, c.links), c.now)
    else c.now
  }

  /** The result: the caller goes on to select requests and apply them. */
  predicate TakesEffect(c: Ctl, u: Command, scanned: seq<Record>) {
    && AnySet(c, u)
    && (HandlerRuns(c, u) ==> PlansLeft(c, u, scanned) != CountryPlans(c.reqs) || u.others)
  }

  /** What a command leaves: settings, cis_enabled, record in effect, requests and the result. */
  predicate Outcome(c: Ctl, u: Command, scanned: seq<Record>, v: Ctl, eff: bool) {
    var a := Asked(c, u);
    && v.src == c.src && v.disabled == c.disabled && v.initAlpha2 == c.initAlpha2 && v.links == c.links
    && v.mode == a.mode && v.flags == a.flags && v.enabled == EnabledAfter(c, u)
    && v.now == InEffectLeft(c, u, scanned)
    && Others(v.reqs) == Others(a.reqs) && CountryPlans(v.reqs) == PlansLeft(c, u, scanned)
    && eff == TakesEffect(c, u, scanned)
  }

  lemma WithoutHandler(c: Ctl, u: Command, scanned: seq<Record>)
    requires !HandlerRuns(c, u) && CountryPlans(Asked(c, u).reqs) == CountryPlans(c.reqs)
    ensures Outcome(c, u, scanned, Asked(c, u).(enabled := EnabledAfter(c, u)), AnySet(c, u))
  {
  }

  lemma WithHandler(c: Ctl, u: Command, scanned: seq<Record>, v: Ctl, handled: bool)
    requires HandlerRuns(c, u) && CountryPlans(Asked(c, u).reqs) == CountryPlans(c.reqs)
    requires v == Asked(c, u).(enabled := EnabledAfter(c, u), reqs := v.reqs, now := v.now)
    requires Others(v.reqs) == Others(Asked(c, u).reqs) && handled == (CountryPlans(v.reqs) != CountryPlans(c.reqs))
    requires var sources := Sources(v.flags, scanned, v.links);
             && v.now == InEffectAfter(v.enabled, v.flags, sources, c.now)
             && CountryPlans(v.reqs) == PlansAfter(CountryPlans(c.reqs), ModeSet(c, u) || FlagsSet(c, u), v.enabled,
                                                   v.flags, sources, c.now)
    ensures Outcome(c, u, scanned, v, handled || u.others)
  {
    hide AnySet, PlansAfter, InEffectAfter, Others, CountryPlans, WithUser;
  }

  /**
   cis_enabled stays current: under Realtek requests that are not switched off it is on in the one mode, and in
   the other exactly if the country asked for now, or else the one configured before, is the worldwide one.
   */
  lemma OutcomeIsCurrent(c: Ctl, u: Command, scanned: seq<Record>, v: Ctl, eff: bool)
    requires Outcome(c, u, scanned, v, eff) && Current(c)
    ensures Current(v)
    ensures var alpha2 := if u.valid && u.plan.Some? then u.plan.value.alpha2 else Configured(c.reqs, c.initAlpha2);
            v.enabled <==>
              && c.src == REGD_SRC_RTK_PRIV && !c.disabled
              && match if u.valid && u.enMode.Some? then u.enMode.value else c.mode
                 case CisemDisable => false
                 case CisemEnable => true
                 case CisemEnableWw => alpha2 == "00"
  {
    hide Configured, Others, WithUser, CountryPlans, PlansLeft, InEffectLeft, TakesEffect;
    ConfiguredByOthers(v.reqs, Asked(c, u).reqs, c.initAlpha2);
    if u.plan.Some? {
      ConfiguredUser(c.reqs, c.initAlpha2, u.plan.value);
    }
  }

  /** The configured country is the user's if there is a request of the user, else the initial one. */
  lemma ConfiguredIs(reqs: seq<Req>, initAlpha2: Alpha2)
    requires forall q, r :: q in reqs && r in reqs && IsUser(q) && IsUser(r) ==> q == r
    ensures forall r :: r in reqs && IsUser(r) ==> Configured(reqs, initAlpha2) == r.plan.alpha2
    ensures (forall r :: r in reqs ==> r.inr != 1) ==> Configured(reqs, initAlpha2) == initAlpha2
  {
    var k := FindUser(reqs);
    forall r | r in reqs && IsUser(r) ensures k < |reqs| && reqs[k] == r {
      var j :| 0 <= j < |reqs| && reqs[j] == r;
    }
  }

  /**
   Outside intersect mode the country-IE requests are the plan of the record in effect, if there is one; a
   record is in effect only while country elements are enabled and not intersected.
   */
  predicate InEffectOnly(c: Ctl) {
    && (c.now.Some? ==> c.enabled && !c.flags.intersect)
    && (!(c.enabled && c.flags.intersect) ==>
          CountryPlans(c.reqs) == if c.now.Some? then {c.now.value.plan} else {})
  }

  /** A command of the user keeps that, also when the handler does not run or skips its mark phase. */
  lemma OutcomeInEffect(c: Ctl, u: Command, scanned: seq<Record>, v: Ctl, eff: bool)
    requires Outcome(c, u, scanned, v, eff) && InEffectOnly(c)
    ensures InEffectOnly(v)
  {
    hide Configured, CisEnables, Others, WithUser, CountryPlans, TakesEffect, Pick;
  }

  /** What the handler leaves of an enabled or disabled state, with or without the mark phase, keeps it too. */
  lemma HandledInEffect(c: Ctl, v: Ctl, goesOn: bool, sources: seq<Record>)
    requires InEffectOnly(c) && v == c.(reqs := v.reqs, links := v.links, now := v.now)
    requires v.now == if goesOn then InEffectAfter(c.enabled, c.flags, sources, c.now) else c.now
    requires if goesOn && (c.flags.intersect || PlanInEffect(c.now) != PlanInEffect(v.now))
             then CountryPlans(v.reqs) == PlansMarked(c.enabled, c.flags, sources, v.now)
             else CountryPlans(v.reqs) == CountryPlans(c.reqs)
    ensures InEffectOnly(v)
  {
    hide CountryPlans, Pick;
  }

  /** The configured country is that of a request that is not a country-IE one. */
  lemma ConfiguredByOthers(reqs: seq<Req>, reqs': seq<Req>, initAlpha2: Alpha2)
    requires Others(reqs) == Others(reqs')
    ensures Configured(reqs, initAlpha2) == Configured(reqs', initAlpha2)
  {
    ConfiguredInOthers(reqs, initAlpha2);
    ConfiguredInOthers(reqs', initAlpha2);
  }

  lemma {:induction false} ConfiguredInOthers(reqs: seq<Req>, initAlpha2: Alpha2)
    ensures Configured(Others(reqs), initAlpha2) == Configured(reqs, initAlpha2)
  {
    if reqs != [] {
      ConfiguredInOthers(reqs[1..], initAlpha2);
      ConfiguredFirst(reqs[0], reqs[1..], initAlpha2);
      ConfiguredFirst(reqs[0], Others(reqs[1..]), initAlpha2);
      assert reqs == [reqs[0]] + reqs[1..];
    }
  }

  lemma ConfiguredFirst(r: Req, rest: seq<Req>, initAlpha2: Alpha2)
    ensures Configured([r] + rest, initAlpha2) == if IsUser(r) then r.plan.alpha2 else Configured(rest, initAlpha2)
  {
    assert ([r] + rest)[1..] == rest;
  }

  /**
   What is put into effect, by what a command changes: a command with valid codes if it has changed something,
   and either neither flags nor cis_enabled, or the country-IE plans as well. One with invalid codes changes no
   setting, but mode and flags it names count as changed.
   */
  lemma EffectExactly(c: Ctl, u: Command, scanned: seq<Record>, v: Ctl, eff: bool)
    requires Outcome(c, u, scanned, v, eff)
    ensures var newPlan := u.plan.Some? && WithUser(c.reqs, u.plan.value) != c.reqs;
            var plans := CountryPlans(v.reqs) != CountryPlans(c.reqs) || u.others;
            if u.valid
            then eff <==>
                   && (newPlan || v.mode != c.mode || v.flags != c.flags || u.others)
                   && (v.flags != c.flags || v.enabled != c.enabled ==> plans)
            else && v.mode == c.mode && v.flags == c.flags && Others(v.reqs) == Others(c.reqs)
                 && (eff <==>
                       && (u.enMode.Some? || u.flags.Some? || u.others)
                       && (u.flags.Some? || v.enabled != c.enabled ==> plans))
  {
    hide WithUser, CountryPlans, Others, CisEnables, Configured, PlansAfter, InEffectAfter, Sources;
  }

  // ----- when a new plan is not put into effect -----

  /** Country elements count only under a worldwide plan, and the new plan makes the country that or no longer that. */
  predicate Flips(c: Ctl, p: Plan) {
    && c.src == REGD_SRC_RTK_PRIV && !c.disabled && c.mode == CisemEnableWw
    && (Configured(c.reqs, c.initAlpha2) == WORLDWIDE_ALPHA2) != (p.alpha2 == WORLDWIDE_ALPHA2)
  }

  lemma ConfiguredUser(reqs: seq<Req>, initAlpha2: Alpha2, p: Plan)
    ensures Configured(WithUser(reqs, p), initAlpha2) == p.alpha2
  {
    hide FindUser;
    FindUserIs(WithUser(reqs, p), FindUser(reqs));
  }

  /**
   A new plan of the user alone is stored without being put into effect exactly if it turns country elements
   on or off and the country-IE handler that runs because of that leaves the plans it finds.
   */
  lemma UserSetAsideExactly(c: Ctl, p: Plan, scanned: seq<Record>)
    requires Current(c) && WithUser(c.reqs, p) != c.reqs
    ensures !TakesEffect(c, PlanOnly(p), scanned) <==>
              && Flips(c, p)
              && CountryPlans(c.reqs) == PlansAfter(CountryPlans(c.reqs), false, p.alpha2 == WORLDWIDE_ALPHA2, c.flags,
                                                    Sources(c.flags, scanned, c.links), c.now)
  {
    hide WithUser, CountryPlans, PlansAfter, Configured;
    ConfiguredUser(c.reqs, c.initAlpha2, p);
  }

  lemma {:induction false} PlansOfCountries(rs: seq<Record>)
    ensures PlansOf(rs) != [] <==> HasCountry(rs)
    decreases |rs|
  {
    if rs != [] {
      var n := |rs| - 1;
      PlansOfCountries(rs[..n]);
      assert rs == rs[..n] + [rs[n]] && rs[n] in rs;
    }
  }

  /**
   With no country-IE request and no record in effect that means: turning them off, or on while no record
   has a country.
   */
  lemma UserSetAsideWithoutPlans(c: Ctl, p: Plan, scanned: seq<Record>)
    requires Current(c) && WithUser(c.reqs, p) != c.reqs
    requires CountryPlans(c.reqs) == {} && c.now == None
    ensures !TakesEffect(c, PlanOnly(p), scanned) <==>
              Flips(c, p) && (p.alpha2 == WORLDWIDE_ALPHA2 ==> !HasCountry(Sources(c.flags, scanned, c.links)))
  {
    hide WithUser, CountryPlans, TakesEffect, Flips, Pick, Configured, HasCountry, Current;
    var sources := Sources(c.flags, scanned, c.links);
    UserSetAsideExactly(c, p, scanned);
    PickIsMaximal(sources, c.now);
    PlansOfCountries(sources);
    var ps := PlansOf(sources);
    assert Plans(ps) == {} <==> ps == [] by {
      assert ps != [] ==> ps[0] in Plans(ps);
    }
  }

  /**
   In the states that commands leave: a new plan is set aside exactly if it turns country elements on while no
   record has a country, or off while there is no country-IE request.
   */
  lemma UserSetAsideSettled(c: Ctl, p: Plan, scanned: seq<Record>)
    requires Current(c) && InEffectOnly(c) && WithUser(c.reqs, p) != c.reqs
    ensures !TakesEffect(c, PlanOnly(p), scanned) <==>
              && Flips(c, p)
              && if p.alpha2 == "00" then !HasCountry(Sources(c.flags, scanned, c.links))
                 else CountryPlans(c.reqs) == {}
  {
    hide WithUser, CountryPlans, TakesEffect, Pick, Configured, HasCountry;
    var sources := Sources(c.flags, scanned, c.links);
    UserSetAsideExactly(c, p, scanned);
    PickIsMaximal(sources, c.now);
    PlansOfCountries(sources);
    var ps := PlansOf(sources);
    assert Plans(ps) == {} <==> ps == [] by {
      assert ps != [] ==> ps[0] in Plans(ps);
    }
  }

  /** The driver's worldwide plan and its plan for the US. */
  function Worldwide(): Req {
    Req(REGD_SRC_RTK_PRIV, SET_BY_INIT, 0, true, Plan(WORLDWIDE_ALPHA2, 0x7F, 0x7F, [3, 3, 3], 15, 7))
  }

  function UsPlan(): Plan {
    Plan("US", 0x1B, 0x05, [3, 3, 3], 15, 7)
  }

  /** The driver started with the worldwide plan, country elements counting under that; no record is in effect yet. */
  predicate StartedWorldwide(c: Ctl) {
    && c.reqs == [Worldwide()] && c.src == REGD_SRC_RTK_PRIV && !c.disabled
    && c.initAlpha2 == WORLDWIDE_ALPHA2 && c.mode == CisemEnableWw && c.enabled && c.now == None
  }

  /** There the user's US plan is set aside, although it is the one that would apply. */
  lemma UserSetAside(c: Ctl, scanned: seq<Record>)
    requires StartedWorldwide(c)
    ensures Current(c) && !TakesEffect(c, PlanOnly(UsPlan()), scanned)
    ensures var rs := Applied(WithUser(c.reqs, UsPlan()), Always(false, false));
            rs != [] && Summary(rs).alpha2 == "US" && Configured(WithUser(c.reqs, UsPlan()), c.initAlpha2) == "US"
  {
    hide TakesEffect, AppliedIn, Pick, FindUser;
    var ww, us := Worldwide(), Req(REGD_SRC_RTK_PRIV, SET_BY_USER, 0, false, UsPlan());
    assert "US"[0] != WORLDWIDE_ALPHA2[0];
    NoUser(ww);
    assert WithUser([ww], UsPlan()) == [ww, us];
    assert CountryPlans([ww]) == {};
    UserSetAsideWithoutPlans(c, UsPlan(), scanned);
    ConfiguredUser(c.reqs, c.initAlpha2, UsPlan());
    OnlyApplied([ww, us], 1);
  }

  lemma NoUser(r: Req)
    requires !IsUser(r)
    ensures FindUser([r]) == 1
  {
    assert [r][1..] == [];
  }

  /** The highest request is the last one, and the only one to apply. */
  lemma {:induction false} OnlyApplied(reqs: seq<Req>, k: nat)
    requires |reqs| == k + 1 && (forall r :: r in reqs ==> r.src == reqs[k].src)
    requires forall j :: 0 <= j < k ==> reqs[j].inr < reqs[k].inr
    ensures Applied(reqs, Always(false, false)) == [reqs[k]]
  {
    NoneIn(reqs[..k], reqs, reqs[k]);
    assert reqs[k] in reqs && reqs == reqs[..k] + [reqs[k]];
    forall r | r in reqs ensures r.inr <= reqs[k].inr {
    }
  }

  lemma {:induction false} NoneIn(part: seq<Req>, reqs: seq<Req>, h: Req)
    requires h in reqs && forall r :: r in part ==> r.src == h.src && r.inr < h.inr
    ensures AppliedIn(part, reqs, Always(false, false)) == []
    decreases |part|
  {
    if part != [] {
      var n := |part| - 1;
      NoneIn(part[..n], reqs, h);
      assert part[n] in part;
    }
  }
}
