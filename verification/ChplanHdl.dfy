/**
 rtw_set_chplan_hdl: the request list is changed, and if that takes effect the requests that apply are
 selected and summed up, and the channel set follows them and the new status.
 */
module ChplanHdl {
  import opened Regd
  import opened Cisr
  import opened UserCmd
  import opened Regulatory
  import opened ChannelSet

  /** What the channels become: by the requests marked now, and the country of their status. */
  twostate predicate ChannelsFollow(rfctl: RfCtl, chset: ChSet, conf: Conf, db: RegDb)
    reads rfctl, chset, chset.chs
  {
    var start := conf.(alpha2 := old(rfctl.status).alpha2);
    && chset.enableChNum == CountEnabled(chset.chs[..])
    && forall k :: 0 <= k < chset.chs.Length ==>
         chset.chs[k] == Updated(start, db, rfctl.reqs, old(chset.chs[k]))
  }

  /** The end of the handler; conf gives what does not come from the status. */
  method ApplyRequests(rfctl: RfCtl, chset: ChSet, conf: Conf, db: RegDb)
    modifies rfctl`reqs, rfctl`regdSrc, rfctl`status, rfctl`cisEnabled, chset`enableChNum, chset.chs
    ensures var was, now := old(rfctl.reqs), rfctl.reqs;
            |now| == |was| && forall k :: 0 <= k < |was| ==>
              now[k] == was[k].(applied := Applies(was, rfctl.always, was[k]))
    ensures ChannelsFollow(rfctl, chset, conf, db)
    ensures old(rfctl.Settled()) ==> rfctl.Settled()
  {
    hide Final, Applies, Summary, AppliedIn, CountEnabled, InForce, CountryPart, Others, AllRtk, OtherStep, InSyncState;
    hide Configured, CisEnables;
    ghost var settled, was, before := rfctl.Settled(), rfctl.reqs, rfctl.Sync();
    rfctl.SelAndStatusUpdate();
    NoneInForce();
    if settled {
      SourceStays(was, rfctl.regdSrc);
      MarksKeepOthers(was, rfctl.reqs, rfctl.initAlpha2);
      MarksKeepPlans(was, rfctl.reqs);
      OtherStepKeepsSync(before, rfctl.Sync());
    }
    chset.ApplyRegulatory(conf.(alpha2 := rfctl.status.alpha2), db, rfctl.reqs);
  }

  lemma SourceStays(reqs: seq<Req>, src: int)
    requires AllRtk(reqs) && Others(reqs) != []
    ensures reqs != [] && (TopSrc(reqs, src) ==> src == REGD_SRC_RTK_PRIV)
  {
  }

  lemma MarksKeepPlans(reqs: seq<Req>, reqs': seq<Req>)
    requires SameButMarks(reqs, reqs')
    ensures CountryPlans(reqs') == CountryPlans(reqs)
  {
    forall i | 0 <= i < |reqs| ensures reqs[i] in reqs && reqs'[i] in reqs' {
    }
  }

  lemma NoneInForce()
    ensures InForce([]) == []
  {
  }

  /**
   The handler for a command of the user. What it keeps holds afterwards, and if the command takes no effect
   status and channels stay as they were, whatever has been stored.
   */
  method SetChplanUser(rfctl: RfCtl, chset: ChSet, u: Command, ifaceId: nat, scanned: seq<Record>,
                       conf: Conf, db: RegDb) returns (eff: bool)
    requires rfctl.Valid() && ifaceId < rfctl.cisr.Length0
    modifies rfctl, rfctl.cisr, chset`enableChNum, chset.chs
    ensures eff == TakesEffect(old(rfctl.View()), u, scanned)
    ensures Configured(rfctl.reqs, rfctl.initAlpha2) ==
              Configured(Asked(old(rfctl.View()), u).reqs, old(rfctl.initAlpha2))
    ensures old(rfctl.Settled()) ==> rfctl.Settled()
    ensures if eff then ChannelsFollow(rfctl, chset, conf, db)
            else rfctl.status == old(rfctl.status) && chset.enableChNum == old(chset.enableChNum)
                 && chset.chs[..] == old(chset.chs[..])
  {
    hide Others, AllRtk, OtherStep, SyncStep, InSyncState, Configured, CisEnables, Current, TakesEffect, Updated;
    hide InEffectOnly;
    ghost var c, before := rfctl.View(), rfctl.Sync();
    eff := rfctl.PrehdlUser(u, ifaceId, scanned);
    OutcomeSettles(c, u, scanned, rfctl.View(), eff);
    if InSyncState(before) {
      ghost var mid, rec :| OtherStep(before, mid) && SyncStep(mid, rfctl.Sync(), rec);
      OtherStepKeepsSync(before, mid);
      StepKeepsSync(mid, rfctl.Sync(), rec);
    }
    if eff {
      ghost var stored := rfctl.reqs;
      ApplyRequests(rfctl, chset, conf, db);
      MarksKeepOthers(stored, rfctl.reqs, rfctl.initAlpha2);
    }
  }

  lemma OutcomeSettles(c: Ctl, u: Command, scanned: seq<Record>, v: Ctl, eff: bool)
    requires Outcome(c, u, scanned, v, eff)
    ensures Current(c) ==> Current(v)
    ensures InEffectOnly(c) ==> InEffectOnly(v)
    ensures Others(c.reqs) != [] ==> Others(v.reqs) != []
    ensures Configured(v.reqs, c.initAlpha2) == Configured(Asked(c, u).reqs, c.initAlpha2)
    ensures v.src == c.src && v.initAlpha2 == c.initAlpha2 && eff == TakesEffect(c, u, scanned)
  {
    hide Others, Configured, Current, InEffectOnly, TakesEffect, CountryPlans, PlansLeft, InEffectLeft, WithUser;
    if Current(c) {
      OutcomeIsCurrent(c, u, scanned, v, eff);
    }
    if InEffectOnly(c) {
      OutcomeInEffect(c, u, scanned, v, eff);
    }
    ConfiguredByOthers(v.reqs, Asked(c, u).reqs, c.initAlpha2);
    AskedHasOthers(c, u);
  }

  lemma AskedHasOthers(c: Ctl, u: Command)
    ensures Others(c.reqs) != [] ==> Others(Asked(c, u).reqs) != []
  {
    if u.valid && u.plan.Some? {
      UserHasOthers(c.reqs, u.plan.value);
    }
  }

  lemma UserHasOthers(reqs: seq<Req>, p: Plan)
    ensures Others(WithUser(reqs, p)) != []
  {
    hide FindUser;
    var now, k := WithUser(reqs, p), FindUser(reqs);
    assert now[k] in now && !IsCountry(now[k]);
    OthersHas(now, k);
  }

  lemma {:induction false} OthersHas(reqs: seq<Req>, k: nat)
    requires k < |reqs| && !IsCountry(reqs[k])
    ensures Others(reqs) != []
  {
    if k > 0 {
      OthersHas(reqs[1..], k - 1);
    }
  }

  /** The handler for country elements. */
  method SetChplanCountryIe(rfctl: RfCtl, chset: ChSet, hasCisr: bool, ifaceId: nat, alinkId: nat, rec: Record,
                            scanned: seq<Record>, conf: Conf, db: RegDb) returns (eff: bool)
    requires rfctl.Valid() && ifaceId < rfctl.cisr.Length0 && (hasCisr ==> Whole(rec))
    modifies rfctl, rfctl.cisr, chset`enableChNum, chset.chs
    ensures old(rfctl.Settled()) ==> rfctl.Settled()
    ensures if eff then ChannelsFollow(rfctl, chset, conf, db)
            else CountryPlans(rfctl.reqs) == old(CountryPlans(rfctl.reqs)) && rfctl.status == old(rfctl.status)
                 && chset.enableChNum == old(chset.enableChNum) && chset.chs[..] == old(chset.chs[..])
  {
    hide Others, AllRtk, OtherStep, SyncStep, InSyncState, Configured, CisEnables, Updated, CountryPlans, Whole;
    hide Reconcile, Pick;
    ghost var c, before := rfctl.View(), rfctl.Sync();
    var marked;
    eff, marked := rfctl.PrehdlCountryIe(hasCisr, ifaceId, alinkId, rec, false, scanned);
    if InEffectOnly(c) {
      rfctl.HandledStaysInEffect(c, scanned, marked);
    }
    ConfiguredByOthers(rfctl.reqs, old(rfctl.reqs), rfctl.initAlpha2);
    if InSyncState(before) {
      StepKeepsSync(before, rfctl.Sync(), rec);
    }
    if eff {
      ApplyRequests(rfctl, chset, conf, db);
    }
  }

  /**
   The driver started with the worldwide plan, with country elements counting under that: the user's US plan
   is stored, but the status stays the worldwide one, and so do the channels.
   */
  method UsSetAside(rfctl: RfCtl, chset: ChSet, ifaceId: nat, scanned: seq<Record>, conf: Conf, db: RegDb)
    returns (eff: bool)
    requires rfctl.Valid() && ifaceId < rfctl.cisr.Length0
    requires StartedWorldwide(rfctl.View()) && rfctl.status == StatusOf(Worldwide())
    modifies rfctl, rfctl.cisr, chset`enableChNum, chset.chs
    ensures !eff && Configured(rfctl.reqs, rfctl.initAlpha2) == "US" && rfctl.status.alpha2 == WORLDWIDE_ALPHA2
    ensures chset.enableChNum == old(chset.enableChNum) && chset.chs[..] == old(chset.chs[..])
  {
    hide TakesEffect, Configured, WithUser;
    UserSetAside(rfctl.View(), scanned);
    eff := SetChplanUser(rfctl, chset, PlanOnly(UsPlan()), ifaceId, scanned, conf, db);
  }
}
