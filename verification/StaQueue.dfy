/**
 The queue of stations to add and delete in rtw_ap.c. Requests are appended under a lock; one
 dispatcher token at a time has the handler serve them. The lock is dropped in between, so the steps
 of the handler interleave with further requests.
 */
module StaQueue {
  import opened Common

  /** struct rtw_add_del_sta_obj; the number stands for its address. */
  datatype Obj = Obj(id: nat, isAdd: bool)

  /** ap_add_del_sta_cmd_state */
  datatype Cmd = Idle | Requesting | Acquired

  /** CONNECT_START or DISCONNECT_PREPARE; CONNECT_END or DISCONNECT; any other event. */
  datatype Msg = Start | End | Other

  /** Where the handler is: outside, past its first locked section, or on its way to free_token. */
  datatype Handler = Resting | Serving(obj: Obj, msg: Msg) | Freeing(left: Option<Obj>)

  /** cnt is a u8. enqueued and removed record what has happened so far. */
  datatype State = State(
    queue: seq<Obj>, cnt: u8, cmd: Cmd, token: bool, handler: Handler,
    enqueued: seq<Obj>, removed: seq<Obj>)

  function Init(): State {
    State([], 0, Idle, false, Resting, [], [])
  }

  /** One locked section, or one step between two; the flags are what calls into other layers return. */
  datatype Event =
    | Enqueue(isAdd: bool, tokenOk: bool)
    | Acquire
    | Begin(msg: Msg, staOk: bool)
    | Serve(staOk: bool, phlOk: bool)
    | Free

  /** rtw_list_delete */
  function Delete(q: seq<Obj>, o: Obj): seq<Obj> {
    if q == [] then []
    else if q[0] == o then q[1..]
    else [q[0]] + Delete(q[1..], o)
  }

  /** rtw_add_del_sta_cmd_check, its locked section */
  function EnqueueStep(s: State, isAdd: bool, tokenOk: bool): State {
    var o := Obj(|s.enqueued|, isAdd);
    var s1 := s.(queue := s.queue + [o], cnt := (s.cnt + 1) % 256, enqueued := s.enqueued + [o]);
    if s.cmd == Idle && tokenOk then s1.(token := true, cmd := Requesting) else s1
  }

  /** The handler's first locked section. */
  function BeginStep(s: State, msg: Msg, staOk: bool): State {
    if s.queue == [] then s.(handler := Freeing(None))
    else if !staOk then s.(handler := Freeing(Some(s.queue[0])))
    else s.(handler := Serving(s.queue[0], msg))
  }

  function Removed(s: State, o: Obj): State {
    s.(queue := Delete(s.queue, o), cnt := (s.cnt - 1) % 256, removed := s.removed + [o])
  }

  /** The handler's switch. */
  function ServeStep(s: State, o: Obj, msg: Msg, staOk: bool, phlOk: bool): State {
    match msg
    case Start => s.(handler := if phlOk then Resting else Freeing(Some(o)))
    case Other => s.(handler := Resting)
    case End =>
      var s1 := Removed(s, o);
      if s1.cnt == 0 || s1.queue == [] then s1.(handler := Freeing(None))
      else if !staOk || !phlOk then s1.(handler := Freeing(Some(s1.queue[0])))
      else s1.(handler := Resting)
  }

  /** The section at free_token with _ap_add_del_sta_cmd_done. */
  function FreeStep(s: State, left: Option<Obj>): State {
    var s1 := match left case None => s case Some(o) => Removed(s, o);
    s1.(cmd := Idle, token := false, handler := Resting)
  }

  /** An event whose turn it is not changes nothing. */
  function Step(s: State, e: Event): State {
    match e
    case Enqueue(isAdd, tokenOk) => EnqueueStep(s, isAdd, tokenOk)
    case Acquire => s.(cmd := Acquired)
    case Begin(msg, staOk) => if s.handler == Resting then BeginStep(s, msg, staOk) else s
    case Serve(staOk, phlOk) =>
      if s.handler.Serving? then ServeStep(s, s.handler.obj, s.handler.msg, staOk, phlOk) else s
    case Free => if s.handler.Freeing? then FreeStep(s, s.handler.left) else s
  }

  function Run(s: State, es: seq<Event>): State
    decreases |es|
  {
    if es == [] then s else Step(Run(s, es[..|es| - 1]), es[|es| - 1])
  }

  /** The objects that the enqueues of a run make, in order. */
  function Requests(es: seq<Event>): seq<Obj>
    decreases |es|
  {
    if es == [] then []
    else
      var front, e := Requests(es[..|es| - 1]), es[|es| - 1];
      if e.Enqueue? then front + [Obj(|front|, e.isAdd)] else front
  }

  /** The object the handler has in hand. */
  function InHand(h: Handler): Option<Obj> {
    match h
    case Resting => None
    case Serving(o, _) => Some(o)
    case Freeing(left) => left
  }

  /**
   What every step keeps: the removed objects followed by the queued ones are the enqueued ones in
   order, the counter is the queue's length as a u8, the object in hand is the head of the queue, and
   no token is out while idle.
   */
  predicate Inv(s: State) {
    && s.removed + s.queue == s.enqueued
    && s.cnt == |s.queue| % 256
    && (InHand(s.handler).Some? ==> s.queue != [] && s.queue[0] == InHand(s.handler).value)
    && (s.cmd == Idle ==> !s.token)
  }

  lemma RemovedHead(s: State, o: Obj)
    requires s.removed + s.queue == s.enqueued && s.cnt == |s.queue| % 256 && s.queue != [] && s.queue[0] == o
    ensures var s1 := Removed(s, o);
            && s1.removed + s1.queue == s1.enqueued && s1.cnt == |s1.queue| % 256 && s1.queue == s.queue[1..]
  {
    assert s.queue == [o] + s.queue[1..];
    assert s.removed + ([o] + s.queue[1..]) == (s.removed + [o]) + s.queue[1..];
  }

  lemma StepKeepsInv(s: State, e: Event)
    requires Inv(s)
    ensures Inv(Step(s, e))
  {
    hide Delete;
    match e
    case Enqueue(isAdd, _) =>
      var o := Obj(|s.enqueued|, isAdd);
      assert s.removed + (s.queue + [o]) == s.removed + s.queue + [o];
    case Acquire =>
    case Begin(_, _) =>
    case Serve(_, _) =>
      if s.handler.Serving? {
        RemovedHead(s, s.handler.obj);
      }
    case Free =>
      if InHand(s.handler).Some? {
        RemovedHead(s, InHand(s.handler).value);
      }
  }

  lemma {:induction false} RunKeepsInv(es: seq<Event>)
    ensures Inv(Run(Init(), es)) && Run(Init(), es).enqueued == Requests(es)
    decreases |es|
  {
    hide Inv, Delete;
    if es == [] {
      InitInv();
    } else {
      RunKeepsInv(es[..|es| - 1]);
      StepKeepsInv(Run(Init(), es[..|es| - 1]), es[|es| - 1]);
    }
  }

  lemma InitInv()
    ensures Inv(Init())
  {
  }

  /**
   Conservation and FIFO order: over every interleaving, failed token requests and error exits
   included, the objects removed so far followed by those queued are the requests in their order, and
   an object is served and removed only while it is the head of the queue.
   */
  lemma Conservation(es: seq<Event>)
    ensures var s := Run(Init(), es);
            && s.removed + s.queue == Requests(es) && s.cnt == |s.queue| % 256
            && (InHand(s.handler).Some? ==> s.queue != [] && s.queue[0] == InHand(s.handler).value)
  {
    RunKeepsInv(es);
  }

  /** The counter is the length of the queue exactly while that is below 256. */
  lemma CounterExactly(es: seq<Event>)
    ensures var s := Run(Init(), es); s.cnt == |s.queue| <==> |s.queue| < 256
  {
    hide Run, Requests;
    RunKeepsInv(es);
  }

  /** A token is only ever requested while none is out. */
  lemma OneToken(es: seq<Event>, isAdd: bool, tokenOk: bool)
    ensures var s := Run(Init(), es); s.cmd == Idle ==> !s.token
    ensures var s, s1 := Run(Init(), es), Run(Init(), es + [Enqueue(isAdd, tokenOk)]);
            s1.cmd == Requesting && s.cmd != Requesting ==> !s.token && s1.token
  {
    RunKeepsInv(es);
    assert (es + [Enqueue(isAdd, tokenOk)])[..|es|] == es;
  }

  /**
   What the handler's switch does to the head of the queue: a start event that succeeds, and an unknown one,
   leave queue, counter and token; an end event takes exactly the head out, and asks for the token to be
   kept if the counter has not come to 0 and the next request can be started.
   */
  lemma ServeExactly(es: seq<Event>, staOk: bool, phlOk: bool)
    requires Run(Init(), es).handler.Serving?
    ensures var s, s1 := Run(Init(), es), Run(Init(), es + [Serve(staOk, phlOk)]);
            && s.queue != [] && s.handler.obj == s.queue[0]
            && match s.handler.msg
               case Start => s1 == s.(handler := if phlOk then Resting else Freeing(Some(s.queue[0])))
               case Other => s1 == s.(handler := Resting)
               case End =>
                 var rest := s.queue[1..];
                 && s1 == s.(queue := rest, cnt := |rest| % 256, removed := s.removed + [s.queue[0]],
                             handler := s1.handler)
                 && (s1.handler == Resting <==> |rest| % 256 != 0 && staOk && phlOk)
                 && (s1.handler != Resting ==> s1.handler == Freeing(if |rest| % 256 == 0 then None else Some(rest[0])))
  {
    hide Delete;
    RunKeepsInv(es);
    var s := Run(Init(), es);
    RunNext(es, Serve(staOk, phlOk));
    RemovedHead(s, s.handler.obj);
  }

  /** Between the handler's two sections requests may be appended; what it has in hand and serves stays. */
  lemma {:induction false} HandlerKeeps(es: seq<Event>, msg: Msg, mid: seq<Event>)
    requires Run(Init(), es).handler == Resting && Run(Init(), es).queue != []
    requires forall e :: e in mid ==> e.Enqueue? || e.Acquire?
    ensures var s, s1 := Run(Init(), es), Run(Init(), es + [Begin(msg, true)] + mid);
            && s1.handler == Serving(s.queue[0], msg) && s1.removed == s.removed
            && |s1.queue| >= |s.queue| && s1.queue[..|s.queue|] == s.queue
    decreases |mid|
  {
    var begun := es + [Begin(msg, true)];
    if mid == [] {
      assert begun + mid == begun;
      RunNext(es, Begin(msg, true));
    } else {
      var front, e := mid[..|mid| - 1], mid[|mid| - 1];
      HandlerKeeps(es, msg, front);
      assert e in mid && begun + mid == begun + front + [e];
      RunNext(begun + front, e);
    }
  }

  /** The handler goes for free_token: nothing to serve, a station that is gone, a failed call, or no request left. */
  predicate GivesUp(s: State, e: Event) {
    match e
    case Begin(_, staOk) => s.handler == Resting && (s.queue == [] || !staOk)
    case Serve(staOk, phlOk) =>
      && s.handler.Serving?
      && (match s.handler.msg
          case Start => !phlOk
          case Other => false
          case End => |s.queue| % 256 == 1 || !staOk || !phlOk)
    case _ => false
  }

  predicate GaveUpAt(es: seq<Event>, j: nat)
    requires j < |es|
  {
    GivesUp(Run(Init(), es[..j]), es[j]) && Free !in es[j + 1..]
  }

  lemma GivesUpStep(s: State, e: Event)
    requires Inv(s)
    ensures Step(s, e).handler.Freeing? <==> (s.handler.Freeing? && e != Free) || GivesUp(s, e)
    ensures Step(s, e).cmd == Idle <==>
              (s.handler.Freeing? && e == Free) ||
              (s.cmd == Idle && e != Acquire && !(e.Enqueue? && e.tokenOk))
    ensures s.token && !Step(s, e).token ==> s.handler.Freeing? && e == Free
  {
    hide Delete;
    if InHand(s.handler).Some? {
      RemovedHead(s, InHand(s.handler).value);
    }
  }

  /** The token is about to be freed exactly if the handler has given up somewhere and not freed it since ... */
  lemma {:induction false} FreeingExactly(es: seq<Event>)
    ensures Run(Init(), es).handler.Freeing? <==> exists j :: 0 <= j < |es| && GaveUpAt(es, j)
    decreases |es|
  {
    hide Run, Inv, GivesUp;
    if es == [] {
      NotYetStranded();
    } else {
      var n := |es| - 1;
      var front, e := es[..n], es[n];
      assert es == front + [e];
      FreeingExactly(front);
      RunKeepsInv(front);
      RunNext(front, e);
      GivesUpStep(Run(Init(), front), e);
      assert GivesUp(Run(Init(), front), e) <==> GaveUpAt(es, n);
      forall j | 0 <= j < n ensures GaveUpAt(es, j) <==> GaveUpAt(front, j) && e != Free {
        assert front[..j] == es[..j] && es[j + 1..] == front[j + 1..] + [e];
      }
    }
  }

  /** ... and once out it goes at no other time: idle comes back only when such a token is freed. */
  lemma TokenStays(es: seq<Event>, e: Event)
    ensures var s, s1 := Run(Init(), es), Run(Init(), es + [e]);
            && (s.cmd != Idle ==> (s1.cmd == Idle <==> e == Free && exists j :: 0 <= j < |es| && GaveUpAt(es, j)))
            && (s.token && !s1.token ==> e == Free && exists j :: 0 <= j < |es| && GaveUpAt(es, j))
  {
    hide Run, Inv, GaveUpAt;
    FreeingExactly(es);
    RunKeepsInv(es);
    RunNext(es, e);
    GivesUpStep(Run(Init(), es), e);
  }

  /** No call into another layer fails. */
  predicate Smooth(e: Event) {
    (e.Begin? ==> e.staOk) && (e.Serve? ==> e.staOk && e.phlOk)
  }

  /** The end events a run serves. */
  function Ends(es: seq<Event>): nat
    decreases |es|
  {
    if es == [] then 0
    else
      var front, e := es[..|es| - 1], es[|es| - 1];
      var h := Run(Init(), front).handler;
      Ends(front) + if e.Serve? && h.Serving? && h.msg == End then 1 else 0
  }

  /** With no failure requests leave the queue by their end events alone, one by each. */
  lemma {:induction false} SmoothEnds(es: seq<Event>)
    requires forall e :: e in es ==> Smooth(e)
    ensures var s := Run(Init(), es); |s.removed| == Ends(es) && (s.handler.Freeing? ==> s.handler.left == None)
    decreases |es|
  {
    hide Delete, Inv;
    if es != [] {
      var front, e := es[..|es| - 1], es[|es| - 1];
      assert Smooth(e) && es == front + [e];
      SmoothEnds(front);
      RunNext(front, e);
      if e.Serve? && Run(Init(), front).handler.Serving? {
        ServeExactly(front, e.staOk, e.phlOk);
      }
    }
  }

  /** A request is waiting that nobody will serve: no token is out or asked for. */
  predicate Stranded(s: State) {
    s.cmd == Idle && s.queue != []
  }

  /** A request while idle gets no token, or the token is freed with more in the queue than what is in hand. */
  predicate Strands(s: State, e: Event) {
    match e
    case Enqueue(_, tokenOk) => s.cmd == Idle && !tokenOk
    case Free => s.handler.Freeing? && |s.queue| > if s.handler.left.Some? then 1 else 0
    case _ => false
  }

  lemma StepStrands(s: State, e: Event)
    requires Inv(s) && !Stranded(s)
    ensures Stranded(Step(s, e)) <==> Strands(s, e)
  {
    hide Delete;
    if InHand(s.handler).Some? {
      RemovedHead(s, InHand(s.handler).value);
    }
  }

  /** Idle means empty, at every point of a run, exactly if no event of it does one of the two. */
  lemma {:induction false} StrandedExactly(es: seq<Event>)
    ensures (forall i :: 0 <= i <= |es| ==> !Stranded(Run(Init(), es[..i])))
        <==> forall i :: 0 <= i < |es| ==> !Strands(Run(Init(), es[..i]), es[i])
    decreases |es|
  {
    hide Run, Inv, Stranded, Strands;
    NotYetStranded();
    assert es[..0] == [];
    if es != [] {
      var n := |es| - 1;
      var front := es[..n];
      StrandedExactly(front);
      assert forall i :: 0 <= i <= n ==> front[..i] == es[..i];
      assert es[..n + 1] == front + [es[n]];
      RunKeepsInv(front);
      RunNext(front, es[n]);
      if !Stranded(Run(Init(), front)) {
        StepStrands(Run(Init(), front), es[n]);
      } else {
        assert Stranded(Run(Init(), es[..n])) && Stranded(Run(Init(), front[..n]));
      }
    }
  }

  lemma NotYetStranded()
    ensures Run(Init(), []) == Init() && !Stranded(Init())
  {
  }

  /** For instance by a request that comes between the last removal and the freeing of the token. */
  lemma LeftBehind()
    ensures exists es :: Stranded(Run(Init(), es)) && Run(Init(), es).handler == Resting
  {
    var a, b := Obj(0, true), Obj(1, false);
    var e1, e2, e3, e4, e5, e6 :=
      Enqueue(true, true), Acquire, Begin(End, true), Serve(true, true), Enqueue(false, true), Free;
    RunNext([], e1);
    RunNext([e1], e2);
    RunNext([e1, e2], e3);
    RunNext([e1, e2, e3], e4);
    RunNext([e1, e2, e3, e4], e5);
    RunNext([e1, e2, e3, e4, e5], e6);
    assert [e1, e2] == [e1] + [e2] && [e1, e2, e3] == [e1, e2] + [e3] && [e1, e2, e3, e4] == [e1, e2, e3] + [e4];
    assert [e1, e2, e3, e4, e5] == [e1, e2, e3, e4] + [e5];
    assert [e1] == [] + [e1];
    var s4 := Run(Init(), [e1, e2, e3, e4]);
    assert s4.queue == [] && s4.handler == Freeing(None) && s4.cmd == Acquired;
    assert Run(Init(), [e1, e2, e3, e4, e5] + [e6]).queue == [] + [b];
  }

  lemma RunNext(es: seq<Event>, e: Event)
    ensures Run(Init(), es + [e]) == Step(Run(Init(), es), e)
  {
    assert (es + [e])[..|es|] == es;
  }
}
