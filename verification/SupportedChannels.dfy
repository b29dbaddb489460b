/**
 The Supported Channels element of rtw_chset.c, section 9.4.2.17 of IEEE Std 802.11-2020: the enabled
 2.4 and 5 GHz channels as runs of (first channel, number of channels).
 */
module SupportedChannels {
  import opened Common
  import opened Regd
  import opened ChannelSet

  const EID_SUPPORTED_CHANNELS: u8 := 36

  datatype Run = Run(first: int, count: int)

  /** Enabled channels outside 6 GHz. */
  predicate Listed(c: Info) {
    !Disabled(c) && c.band != Band6G
  }

  function Channels(chs: seq<Info>): seq<int>
    decreases |chs|
  {
    if chs == [] then []
    else
      var n := |chs| - 1;
      if Listed(chs[n]) then Channels(chs[..n]) + [chs[n].num] else Channels(chs[..n])
  }

  /** The runs closed so far and the one in progress. */
  datatype Acc = Acc(closed: seq<Run>, open: Option<Run>)

  function All(a: Acc): seq<Run> {
    match a.open
    case None => a.closed
    case Some(r) => a.closed + [r]
  }

  /** One more channel: it joins the run in progress or starts one; channel 0 ends a run and starts none. */
  function Next(a: Acc, c: int): Acc {
    if c == 0 then Acc(All(a), None)
    else if a.open.Some? && a.open.value.first + a.open.value.count == c
    then a.(open := Some(Run(a.open.value.first, a.open.value.count + 1)))
    else Acc(All(a), Some(Run(c, 1)))
  }

  function Fold(cs: seq<int>): Acc
    decreases |cs|
  {
    if cs == [] then Acc([], None) else Next(Fold(cs[..|cs| - 1]), cs[|cs| - 1])
  }

  function Runs(cs: seq<int>): seq<Run> {
    All(Fold(cs))
  }

  function NonZero(cs: seq<int>): seq<int>
    decreases |cs|
  {
    if cs == [] then []
    else
      var n := |cs| - 1;
      if cs[n] == 0 then NonZero(cs[..n]) else NonZero(cs[..n]) + [cs[n]]
  }

  function Span(first: int, count: int): seq<int>
    decreases count
  {
    if count <= 0 then [] else Span(first, count - 1) + [first + count - 1]
  }

  /** The channels that runs stand for. */
  function Expand(rs: seq<Run>): seq<int>
    decreases |rs|
  {
    if rs == [] then [] else Expand(rs[..|rs| - 1]) + Span(rs[|rs| - 1].first, rs[|rs| - 1].count)
  }

  /** Every run has a channel, and no two neighbours could be one run. */
  predicate Canonical(rs: seq<Run>) {
    && (forall i :: 0 <= i < |rs| ==> rs[i].count >= 1)
    && (forall i :: 0 < i < |rs| ==> rs[i - 1].first + rs[i - 1].count != rs[i].first)
  }

  lemma JoinLast(rs: seq<Run>)
    requires rs != [] && rs[|rs| - 1].count >= 1
    ensures var n := |rs| - 1; var next := rs[n := Run(rs[n].first, rs[n].count + 1)];
            Expand(next) == Expand(rs) + [rs[n].first + rs[n].count]
  {
    var n := |rs| - 1;
    var r := rs[n];
    assert rs[n := Run(r.first, r.count + 1)][..n] == rs[..n];
    assert Span(r.first, r.count + 1) == Span(r.first, r.count) + [r.first + r.count];
    SeqAssoc(Expand(rs[..n]), Span(r.first, r.count), [r.first + r.count]);
  }

  lemma SeqAssoc(a: seq<int>, b: seq<int>, c: seq<int>)
    ensures a + (b + c) == a + b + c
  {
  }

  lemma StartRun(rs: seq<Run>, c: int)
    ensures Expand(rs + [Run(c, 1)]) == Expand(rs) + [c]
  {
    assert (rs + [Run(c, 1)])[..|rs|] == rs;
    assert Span(c, 0) == [] && Span(c, 1) == [] + [c] == [c];
  }

  /** What the fold keeps, without zeros: the last run is in progress, and the runs are as long as they can be. */
  predicate Maximal(a: Acc) {
    Canonical(All(a)) && (a.open == None ==> a.closed == [])
  }

  predicate Positive(rs: seq<Run>) {
    forall i :: 0 <= i < |rs| ==> rs[i].count >= 1
  }

  lemma NextExpands(a: Acc, c: int)
    requires Positive(All(a))
    ensures Positive(All(Next(a, c))) && |All(a)| <= |All(Next(a, c))|
    ensures Expand(All(Next(a, c))) == if c == 0 then Expand(All(a)) else Expand(All(a)) + [c]
    ensures c != 0 && Maximal(a) ==> Maximal(Next(a, c))
  {
    hide Expand;
    var rs := All(a);
    if c != 0 {
      if a.open.Some? && a.open.value.first + a.open.value.count == c {
        JoinLast(rs);
        assert All(Next(a, c)) == rs[|rs| - 1 := Run(a.open.value.first, a.open.value.count + 1)];
      } else {
        StartRun(rs, c);
      }
    }
  }

  lemma NoneExpanded()
    ensures Expand([]) == [] && Maximal(Fold([]))
  {
  }

  /**
   Expanding the runs gives exactly the channels in order, but for zeros; and if there is no zero they
   are as long as they can be.
   */
  lemma {:induction false} RunsRoundTrip(cs: seq<int>)
    ensures Expand(Runs(cs)) == NonZero(cs) && Positive(Runs(cs))
    ensures 0 !in cs ==> NonZero(cs) == cs && Canonical(Runs(cs)) && Maximal(Fold(cs))
    decreases |cs|
  {
    hide Expand, Next, Canonical, All;
    NoneExpanded();
    if cs == [] {
      NoRuns();
    } else {
      var n := |cs| - 1;
      RunsRoundTrip(cs[..n]);
      NextExpands(Fold(cs[..n]), cs[n]);
      assert cs == cs[..n] + [cs[n]];
    }
  }

  function Bytes(rs: seq<Run>): (b: seq<int>)
    ensures |b| == 2 * |rs|
    decreases |rs|
  {
    if rs == [] then [] else Bytes(rs[..|rs| - 1]) + [rs[|rs| - 1].first, rs[|rs| - 1].count]
  }

  /** How a receiver reads the element's data. */
  function RunsIn(b: seq<int>): seq<Run>
    decreases |b|
  {
    if |b| < 2 then [] else RunsIn(b[..|b| - 2]) + [Run(b[|b| - 2], b[|b| - 1])]
  }

  lemma ReadSnoc(b: seq<int>, r: Run)
    ensures RunsIn(b + [r.first, r.count]) == RunsIn(b) + [r]
  {
    var all := b + [r.first, r.count];
    assert all[..|all| - 2] == b;
  }

  lemma {:induction false} BytesRead(rs: seq<Run>)
    ensures RunsIn(Bytes(rs)) == rs
    decreases |rs|
  {
    if rs != [] {
      var n := |rs| - 1;
      BytesRead(rs[..n]);
      ReadSnoc(Bytes(rs[..n]), rs[n]);
      assert rs == rs[..n] + [rs[n]];
    }
  }

  /** A receiver gets back exactly the listed channels, in order; a channel 0 is not listed. */
  lemma ElementRoundTrip(chs: seq<Info>)
    ensures Expand(RunsIn(Bytes(Runs(Channels(chs))))) == NonZero(Channels(chs))
    ensures 0 !in Channels(chs) ==> Expand(RunsIn(Bytes(Runs(Channels(chs))))) == Channels(chs)
  {
    RunsRoundTrip(Channels(chs));
    BytesRead(Runs(Channels(chs)));
  }

  predicate Increasing(at: seq<nat>) {
    forall i, j :: 0 <= i < j < |at| ==> at[i] < at[j]
  }

  lemma ChannelsSnoc(chs: seq<Info>)
    ensures chs == [] ==> Channels(chs) == []
    ensures chs != [] ==>
              var c, front := chs[|chs| - 1], Channels(chs[..|chs| - 1]);
              Channels(chs) == if Listed(c) then front + [c.num] else front
  {
    hide Listed;
  }

  /** At these places, in order, are listed entries with these channels, and nowhere else. */
  predicate Shows(chs: seq<Info>, at: seq<nat>, cs: seq<int>) {
    && |at| == |cs|
    && (forall k :: 0 <= k < |at| ==> at[k] < |chs| && Listed(chs[at[k]]) && cs[k] == chs[at[k]].num)
  }

  predicate Covers(chs: seq<Info>, at: seq<nat>) {
    forall i :: 0 <= i < |chs| && Listed(chs[i]) ==> i in at
  }

  lemma ShowsSnoc(front: seq<Info>, c: Info, at: seq<nat>, cs: seq<int>)
    requires Shows(front, at, cs) && Increasing(at)
    ensures if Listed(c) then Shows(front + [c], at + [|front|], cs + [c.num]) && Increasing(at + [|front|])
            else Shows(front + [c], at, cs)
  {
    hide Listed;
    var chs := front + [c];
    assert forall i :: 0 <= i < |front| ==> chs[i] == front[i];
  }

  lemma CoversSnoc(front: seq<Info>, c: Info, at: seq<nat>)
    requires Covers(front, at)
    ensures Covers(front + [c], if Listed(c) then at + [|front|] else at)
  {
    hide Listed;
    var chs := front + [c];
    forall i | 0 <= i < |chs| && Listed(chs[i]) ensures i in if Listed(c) then at + [|front|] else at {
      if i < |front| {
        assert chs[i] == front[i] && i in at;
      } else {
        assert (at + [|front|])[|at|] == i;
      }
    }
  }

  lemma {:induction false} Indices(chs: seq<Info>) returns (at: seq<nat>)
    ensures Shows(chs, at, Channels(chs)) && Covers(chs, at) && Increasing(at)
    decreases |chs|
  {
    hide Listed, Channels, Shows, Covers, Increasing;
    ChannelsSnoc(chs);
    if chs == [] {
      at := [];
      NothingShown();
    } else {
      var n := |chs| - 1;
      at := Indices(chs[..n]);
      ShowsSnoc(chs[..n], chs[n], at, Channels(chs[..n]));
      CoversSnoc(chs[..n], chs[n], at);
      assert chs == chs[..n] + [chs[n]];
      if Listed(chs[n]) {
        at := at + [n];
      }
    }
  }

  lemma NothingShown()
    ensures Shows([], [], []) && Covers([], []) && Increasing([])
  {
  }

  lemma ListedMeans(c: Info)
    ensures Listed(c) <==> c.flags & 0x01 == 0 && c.band in {Band24G, Band5G}
  {
    hide BitSet;
    Masks(c.flags);
  }

  /** The listed channels are those of the entries that are enabled (DIS, 0x01, clear) and not of 6 GHz, in order. */
  lemma ChannelsInOrder(chs: seq<Info>) returns (at: seq<nat>)
    ensures |at| == |Channels(chs)| && Increasing(at)
    ensures forall k :: 0 <= k < |at| ==> at[k] < |chs| && Channels(chs)[k] == chs[at[k]].num
    ensures forall i :: 0 <= i < |chs| ==> (i in at <==> chs[i].flags & 0x01 == 0 && chs[i].band in {Band24G, Band5G})
  {
    hide Listed, Channels;
    at := Indices(chs);
    forall i | 0 <= i < |chs| ensures i in at <==> chs[i].flags & 0x01 == 0 && chs[i].band in {Band24G, Band5G} {
      ListedMeans(chs[i]);
    }
  }

  lemma {:induction false} RunsOfPrefix(chs: seq<Info>, k: nat)
    requires k <= |chs|
    ensures |Runs(Channels(chs[..k]))| <= |Runs(Channels(chs))|
    decreases |chs| - k
  {
    hide Listed;
    if k == |chs| {
      assert chs[..k] == chs;
    } else {
      RunsOfPrefix(chs, k + 1);
      RunsStep(chs, k);
    }
  }

  /** One more entry of the channel set. */
  lemma RunsStep(chs: seq<Info>, k: nat)
    requires k < |chs|
    ensures var cs, cs' := Channels(chs[..k]), Channels(chs[..k + 1]);
            && |Runs(cs)| <= |Runs(cs')|
            && Fold(cs') == (if Listed(chs[k]) then Next(Fold(cs), chs[k].num) else Fold(cs))
  {
    hide Listed, Next, All;
    var cs := Channels(chs[..k]);
    assert chs[..k + 1][..k] == chs[..k];
    RunsRoundTrip(cs);
    NextExpands(Fold(cs), chs[k].num);
    assert (cs + [chs[k].num])[..|cs|] == cs;
  }

  /** fch and lch stand for the run in progress; fch is 0 if there is none. */
  predicate InProgress(a: Acc, fch: int, lch: int) {
    if fch == 0 then a.open == None else 1 <= fch <= lch && a.open == Some(Run(fch, lch - fch + 1))
  }

  lemma BytesSnoc(rs: seq<Run>, r: Run)
    ensures Bytes(rs + [r]) == Bytes(rs) + [r.first, r.count]
  {
    assert (rs + [r])[..|rs|] == rs;
  }

  lemma JoinStep(a: Acc, fch: int, lch: int, ch: int)
    requires InProgress(a, fch, lch) && ch >= 0
    ensures fch == 0 ==> InProgress(Next(a, ch), ch, ch) && Next(a, ch).closed == a.closed
    ensures fch != 0 && lch + 1 == ch ==> InProgress(Next(a, ch), fch, ch) && Next(a, ch).closed == a.closed
    ensures fch != 0 && lch + 1 != ch ==>
              InProgress(Next(a, ch), ch, ch) && Next(a, ch).closed == a.closed + [Run(fch, lch - fch + 1)] == All(a)
  {
  }

  /** Two bytes of the element. */
  method PutRun(buf: array<u8>, from: nat, cont: nat, fch: u8, lch: u8, ghost closed: seq<Run>) returns (next: nat)
    requires from <= cont && cont + 2 <= buf.Length && 1 <= fch <= lch && buf[from..cont] == Bytes(closed)
    modifies buf
    ensures next == cont + 2 && buf[from..next] == Bytes(closed + [Run(fch, lch - fch + 1)])
    ensures buf[..from] == old(buf[..from])
    ensures forall j :: next <= j < buf.Length ==> buf[j] == old(buf[j])
  {
    BytesSnoc(closed, Run(fch, lch - fch + 1));
    ghost var was := buf[from..cont];
    buf[cont], buf[cont + 1] := fch, lch - fch + 1;
    next := cont + 2;
    assert buf[from..next] == was + [buf[cont], buf[cont + 1]];
  }

  /** The loop of rtw_chset_set_spt_chs_ie and the run left over after it. */
  method WriteRuns(chs: seq<Info>, buf: array<u8>, from: nat) returns (cont: nat)
    requires from + 2 * |Runs(Channels(chs))| <= buf.Length
    modifies buf
    ensures cont == from + 2 * |Runs(Channels(chs))| && buf[from..cont] == Bytes(Runs(Channels(chs)))
    ensures buf[..from] == old(buf[..from]) && buf[cont..] == old(buf[cont..])
  {
    hide Fold, Channels, Listed, Next, Bytes;
    var fch: u8, lch: u8, i := 0, 0, 0;
    cont := from;
    NoRuns();
    assert chs[..0] == [];
    while i < |chs|
      invariant i <= |chs| && InProgress(Fold(Channels(chs[..i])), fch, lch)
      invariant var closed := Fold(Channels(chs[..i])).closed;
                cont == from + 2 * |closed| <= buf.Length && buf[from..cont] == Bytes(closed)
      invariant buf[..from] == old(buf[..from])
      invariant forall j :: cont <= j < buf.Length ==> buf[j] == old(buf[j])
    {
      ghost var a := Fold(Channels(chs[..i]));
      RunsStep(chs, i);
      RunsOfPrefix(chs, i + 1);
      var c := chs[i];
      ListedIs(c);
      if !Disabled(c) && c.band != Band6G {
        var ch := c.num;
        JoinStep(a, fch, lch, ch);
        if fch == 0 {
          fch := ch;
        } else if lch + 1 != ch {
          cont := PutRun(buf, from, cont, fch, lch, a.closed);
          fch := ch;
        }
        lch := ch;
      }
      i := i + 1;
    }
    assert chs[..i] == chs;
    if fch != 0 {
      cont := PutRun(buf, from, cont, fch, lch, Fold(Channels(chs)).closed);
    }
  }

  /** rtw_chset_set_spt_chs_ie */
  method SetSptChsIe(chs: seq<Info>, buf: array<u8>, pos: nat, bufLen: nat) returns (newPos: nat, newLen: nat)
    requires pos + 2 + 2 * |Runs(Channels(chs))| <= buf.Length
    modifies buf
    ensures newLen - bufLen == newPos - pos && buf[..pos] == old(buf[..pos])
    ensures NonZero(Channels(chs)) == [] ==> newPos == pos && buf[pos..] == old(buf[pos..])
    ensures NonZero(Channels(chs)) != [] ==>
              var rs := Runs(Channels(chs));
              && newPos == pos + 2 + 2 * |rs| && buf[pos] == 36 && buf[pos + 1] == 2 * |rs| % 256
              && buf[pos + 2..newPos] == Bytes(rs) && buf[newPos..] == old(buf[newPos..])
  {
    hide Runs, Channels, Bytes, NonZero;
    NoRunsIff(Channels(chs));
    var cont := WriteRuns(chs, buf, pos + 2);
    TailIs(old(buf[..]), buf[..], pos);
    if cont > pos + 2 {
      ghost var body, tail := buf[pos + 2..cont], buf[cont..];
      buf[pos], buf[pos + 1] := EID_SUPPORTED_CHANNELS, (cont - pos - 2) % 256;
      assert buf[pos + 2..cont] == body && buf[cont..] == tail;
      return cont, bufLen + cont - pos;
    }
    return pos, bufLen;
  }

  lemma NoRunsIff(cs: seq<int>)
    ensures Runs(cs) == [] <==> NonZero(cs) == []
  {
    hide Runs, NonZero;
    RunsRoundTrip(cs);
    var rs := Runs(cs);
    if rs != [] {
      var r := rs[|rs| - 1];
      assert Span(r.first, r.count) != [];
      assert Expand(rs) == Expand(rs[..|rs| - 1]) + Span(r.first, r.count);
    }
  }

  lemma TailIs(s: seq<u8>, t: seq<u8>, pos: nat)
    requires pos + 2 <= |s| == |t| && s[..pos + 2] == t[..pos + 2]
    ensures s[..pos] == t[..pos]
    ensures s[pos + 2..] == t[pos + 2..] ==> s[pos..] == t[pos..]
  {
    assert s[..pos] == s[..pos + 2][..pos] && t[..pos] == t[..pos + 2][..pos];
    if s[pos + 2..] == t[pos + 2..] {
      assert s == s[..pos + 2] + s[pos + 2..] && t == t[..pos + 2] + t[pos + 2..];
    }
  }

  lemma NoRuns()
    ensures Channels([]) == [] && Fold([]) == Acc([], None) && Runs([]) == [] && Bytes([]) == []
  {
  }

  lemma ListedIs(c: Info)
    ensures Listed(c) == (!Disabled(c) && c.band != Band6G)
  {
  }
}
