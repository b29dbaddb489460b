/**
 The NAT2.5 bridge database of rtw_br_ext.c as values: sixteen chains of records, what the driver's
 operations do to them, and the finite map they stand for.
 */
module Nat25 {
  import opened Common

  const MAX_NETWORK_ADDR_LEN := 17
  const NAT25_HASH_SIZE := 16
  const NAT25_AGEING_TIME := 300

  const NAT25_IPV4: bv8 := 1
  const NAT25_IPV6: bv8 := 2
  const NAT25_IPX: bv8 := 3
  const NAT25_APPLE: bv8 := 4
  const NAT25_PPPOE: bv8 := 5

  type Addr = a: seq<bv8> | |a| == MAX_NETWORK_ADDR_LEN
    witness seq(MAX_NETWORK_ADDR_LEN, i => 0)

  /** One database entry without its links. */
  datatype Rec = Rec(addr: Addr, mac: Mac, use: int, age: int)

  type Table = t: seq<seq<Rec>> | |t| == NAT25_HASH_SIZE
    witness seq(NAT25_HASH_SIZE, i => [])

  // ----- hash and comparison -----

  function Xor(s: seq<bv8>): bv8 {
    if s == [] then 0 else s[0] ^ Xor(s[1..])
  }

  /** __nat25_network_hash */
  function Hash(a: Addr): (h: nat)
    ensures h < NAT25_HASH_SIZE
  {
    var x :=
      if a[0] == NAT25_IPV4 then Xor(a[7..11])
      else if a[0] == NAT25_IPX then Xor(a[1..11])
      else if a[0] == NAT25_APPLE then Xor(a[1..4])
      else if a[0] == NAT25_PPPOE then Xor(a[0..9])
      else if a[0] == NAT25_IPV6 then Xor(a[1..17])
      else Xor(a);
    LowBits(x);
    (x & 15) as int
  }

  lemma LowBits(x: bv8)
    ensures (x & 15) as int < NAT25_HASH_SIZE
  {
    assert x & 15 < 16;
  }

  lemma {:induction false} XorUpdated(s: seq<bv8>, k: nat, y: bv8)
    requires k < |s|
    ensures Xor(s[k := y]) == Changed(Xor(s), s[k], y)
  {
    if k == 0 {
      assert s[0 := y][1..] == s[1..];
      XorTwice(s[0], y, Xor(s[1..]));
    } else {
      assert s[k := y][1..] == s[1..][k - 1 := y];
      XorUpdated(s[1..], k - 1, y);
    }
  }

  lemma XorTwice(p: bv8, y: bv8, x: bv8)
    ensures y ^ x == (p ^ x) ^ (p ^ y)
  {
  }

  lemma SliceUpdated(s: seq<bv8>, lo: nat, hi: nat, k: nat, y: bv8)
    requires lo <= hi <= |s| && k < |s|
    ensures s[k := y][lo..hi] == if lo <= k < hi then s[lo..hi][k - lo := y] else s[lo..hi]
  {
  }

  function LowNibble(x: bv8): int {
    (x & 15) as int
  }

  function Changed(x: bv8, p: bv8, y: bv8): bv8 {
    x ^ (p ^ y)
  }

  lemma SameNibble(x: bv8, p: bv8, y: bv8)
    ensures LowNibble(Changed(x, p, y)) == LowNibble(x) <==> LowNibble(p) == LowNibble(y)
  {
    assert (x ^ (p ^ y)) & 15 == x & 15 <==> p & 15 == y & 15;
  }

  lemma SameLowBits(p: bv8, y: bv8)
    ensures LowNibble(p) == LowNibble(y) <==> p & 15 == y & 15
  {
  }

  /** The range of bytes that are combined. */
  function From(typ: bv8): nat {
    if typ == NAT25_IPV4 then 7
    else if typ == NAT25_IPX || typ == NAT25_APPLE || typ == NAT25_IPV6 then 1
    else 0
  }

  function To(typ: bv8): nat {
    if typ == NAT25_IPV4 || typ == NAT25_IPX then 11
    else if typ == NAT25_APPLE then 4
    else if typ == NAT25_PPPOE then 9
    else MAX_NETWORK_ADDR_LEN
  }

  lemma HashIs(a: Addr)
    ensures From(a[0]) <= To(a[0]) <= |a| && Hash(a) == LowNibble(Xor(a[From(a[0])..To(a[0])]))
  {
    assert a[0..17] == a;
  }

  /**
   The bytes behind the type byte that decide the bucket: four of an IPv4 address (type 1), ten of an IPX
   one (3), three of an AppleTalk one (4), eight for PPPoE (5), else all; each with its low four bits.
   */
  lemma HashDecides(a: Addr, k: nat, y: bv8)
    requires 1 <= k < 17
    ensures Hash(a) < 16
    ensures var decides := if a[0] == 1 then 7 <= k < 11
                           else if a[0] == 3 then k < 11
                           else if a[0] == 4 then k < 4
                           else if a[0] == 5 then k < 9
                           else true;
            Hash(a[k := y]) == Hash(a) <==> !decides || a[k] & 15 == y & 15
  {
    hide Hash, Xor, LowNibble, Changed;
    SameLowBits(a[k], y);
    var lo, hi := From(a[0]), To(a[0]);
    HashIs(a);
    HashIs(a[k := y]);
    SliceUpdated(a, lo, hi, k, y);
    if lo <= k < hi {
      XorUpdated(a[lo..hi], k - lo, y);
      SameNibble(Xor(a[lo..hi]), a[k], y);
    }
  }

  lemma {:induction false} XorZeros(s: seq<bv8>)
    requires forall k :: 0 <= k < |s| ==> s[k] == 0
    ensures Xor(s) == 0
  {
    if s != [] {
      XorZeros(s[1..]);
    }
  }

  /** The type byte is combined as well for PPPoE and for types that are none of IPv4, IPv6 (2), IPX and AppleTalk. */
  lemma HashOfType(a: Addr)
    requires forall k :: 1 <= k < 17 ==> a[k] == 0
    ensures Hash(a) == if a[0] in {1, 2, 3, 4} then 0 else (a[0] & 15) as int
  {
    hide Hash, Xor;
    var s := a[From(a[0])..To(a[0])];
    HashIs(a);
    if From(a[0]) > 0 {
      XorZeros(s);
    } else {
      XorZeros(s[1..]);
      XorFirst(s);
    }
  }

  lemma XorFirst(s: seq<bv8>)
    requires s != [] && Xor(s[1..]) == 0
    ensures Xor(s) == s[0]
  {
  }

  /**
   What the comparison helper reports as true. The chain walks test !_rtw_memcmp(entry, key), which
   picks the entry equal to the key under the first convention and one different from it under the second.
   */
  datatype Helper = TrueOnDifference | TrueOnEqual

  predicate Hit(h: Helper, entry: Addr, key: Addr) {
    match h
    case TrueOnDifference => entry == key
    case TrueOnEqual => entry != key
  }

  predicate HasExpired(r: Rec, limit: int) {
    r.age <= limit
  }

  // ----- one chain -----

  /** The entry a chain walk stops at, |c| if it runs off the end. */
  function Find(h: Helper, c: seq<Rec>, a: Addr): (k: nat)
    ensures k <= |c|
    ensures k < |c| ==> Hit(h, c[k].addr, a)
    ensures forall j :: 0 <= j < k ==> !Hit(h, c[j].addr, a)
  {
    if c == [] || Hit(h, c[0].addr, a) then 0 else 1 + Find(h, c[1..], a)
  }

  function Insert(h: Helper, c: seq<Rec>, a: Addr, mac: Mac, now: int): seq<Rec> {
    var k := Find(h, c, a);
    if k < |c| then c[k := c[k].(mac := mac, age := now)] else [Rec(a, mac, 1, now)] + c
  }

  /** The return value, and the MAC put into the packet if there is one. */
  datatype Answer = Answer(found: bool, mac: Option<Mac>)

  function Answered(h: Helper, c: seq<Rec>, a: Addr, limit: int): Answer {
    var k := Find(h, c, a);
    if k == |c| then Answer(false, None)
    else Answer(true, if HasExpired(c[k], limit) then None else Some(c[k].mac))
  }

  function Used(h: Helper, c: seq<Rec>, a: Addr, limit: int): seq<Rec> {
    var k := Find(h, c, a);
    if k == |c| || HasExpired(c[k], limit) then c else c[k := c[k].(use := c[k].use + 1)]
  }

  /** An expired entry loses one use, and with its last use its place. */
  function Aged(r: Rec, limit: int): Option<Rec> {
    if !HasExpired(r, limit) then Some(r)
    else if r.use == 1 then None
    else Some(r.(use := r.use - 1))
  }

  function Expire(c: seq<Rec>, limit: int): seq<Rec> {
    if c == [] then []
    else match Aged(c[0], limit)
         case None => Expire(c[1..], limit)
         case Some(r) => [r] + Expire(c[1..], limit)
  }

  // ----- the operations of the database -----

  datatype Event =
    | EvInsert(a: Addr, mac: Mac, now: int)
    | EvLookup(a: Addr, limit: int)
    | EvExpire(limit: int)
    | EvCleanup

  function TableStep(h: Helper, t: Table, e: Event): (Table, Option<Answer>) {
    match e
    case EvInsert(a, mac, now) => (t[Hash(a) := Insert(h, t[Hash(a)], a, mac, now)], None)
    case EvLookup(a, limit) => (t[Hash(a) := Used(h, t[Hash(a)], a, limit)], Some(Answered(h, t[Hash(a)], a, limit)))
    case EvExpire(limit) => (seq(NAT25_HASH_SIZE, i requires 0 <= i < NAT25_HASH_SIZE => Expire(t[i], limit)), None)
    case EvCleanup => (seq(NAT25_HASH_SIZE, i => []), None)
  }

  type Db = map<Addr, Rec>

  /** The same operations on a map from network addresses. */
  function MapStep(m: Db, e: Event): (Db, Option<Answer>) {
    match e
    case EvInsert(a, mac, now) => (m[a := if a in m then m[a].(mac := mac, age := now) else Rec(a, mac, 1, now)], None)
    case EvLookup(a, limit) =>
      if a !in m then (m, Some(Answer(false, None)))
      else if HasExpired(m[a], limit) then (m, Some(Answer(true, None)))
      else (m[a := m[a].(use := m[a].use + 1)], Some(Answer(true, Some(m[a].mac))))
    case EvExpire(limit) => (map a | a in m && Aged(m[a], limit).Some? :: Aged(m[a], limit).value, None)
    case EvCleanup => (map[], None)
  }

  function EmptyTable(): Table {
    seq(NAT25_HASH_SIZE, i => [])
  }

  function TableRun(h: Helper, t: Table, es: seq<Event>): (Table, seq<Option<Answer>>)
    decreases es
  {
    if es == [] then (t, [])
    else
      var (t1, out) := TableStep(h, t, es[0]);
      var (t2, outs) := TableRun(h, t1, es[1..]);
      (t2, [out] + outs)
  }

  function MapRun(m: Db, es: seq<Event>): (Db, seq<Option<Answer>>)
    decreases es
  {
    if es == [] then (m, [])
    else
      var (m1, out) := MapStep(m, es[0]);
      var (m2, outs) := MapRun(m1, es[1..]);
      (m2, [out] + outs)
  }

  // ----- a chain with one entry per address is a map -----

  predicate ChainInv(c: seq<Rec>, i: nat) {
    && (forall j :: 0 <= j < |c| ==> Hash(c[j].addr) == i && c[j].use >= 1)
    && (forall j, k :: 0 <= j < k < |c| ==> c[j].addr != c[k].addr)
  }

  predicate TableInv(t: Table) {
    forall i :: 0 <= i < |t| ==> ChainInv(t[i], i)
  }

  /** The record of an address in a chain. */
  function Get(c: seq<Rec>, a: Addr): Option<Rec> {
    if c == [] then None
    else if c[0].addr == a then Some(c[0])
    else Get(c[1..], a)
  }

  ghost predicate Represents(t: Table, m: Db) {
    && TableInv(t)
    && forall a: Addr :: if a in m then Get(t[Hash(a)], a) == Some(m[a]) else Get(t[Hash(a)], a) == None
  }

  lemma {:induction false} GetFind(c: seq<Rec>, a: Addr)
    ensures Get(c, a) == var k := Find(TrueOnDifference, c, a); if k < |c| then Some(c[k]) else None
  {
    if c != [] && c[0].addr != a {
      GetFind(c[1..], a);
    }
  }

  lemma {:induction false} GetUpdated(c: seq<Rec>, k: nat, r: Rec, b: Addr)
    requires k < |c| && r.addr == c[k].addr && forall j :: 0 <= j < k ==> c[j].addr != r.addr
    ensures Get(c[k := r], b) == if b == r.addr then Some(r) else Get(c, b)
  {
    if k > 0 {
      GetUpdated(c[1..], k - 1, r, b);
      assert c[k := r][1..] == c[1..][k - 1 := r];
    }
  }

  lemma InsertRefines(c: seq<Rec>, i: nat, a: Addr, mac: Mac, now: int, b: Addr)
    requires ChainInv(c, i) && Hash(a) == i
    ensures var c' := Insert(TrueOnDifference, c, a, mac, now);
            && ChainInv(c', i)
            && Get(c', b) == if b != a then Get(c, b)
                             else if Get(c, a).Some? then Some(Get(c, a).value.(mac := mac, age := now))
                             else Some(Rec(a, mac, 1, now))
  {
    hide Hash;
    var k := Find(TrueOnDifference, c, a);
    GetFind(c, a);
    if k < |c| {
      GetUpdated(c, k, c[k].(mac := mac, age := now), b);
    } else {
      assert ([Rec(a, mac, 1, now)] + c)[1..] == c;
    }
  }

  lemma LookupRefines(c: seq<Rec>, i: nat, a: Addr, limit: int, b: Addr)
    requires ChainInv(c, i) && Hash(a) == i
    ensures var c' := Used(TrueOnDifference, c, a, limit);
            && ChainInv(c', i)
            && Answered(TrueOnDifference, c, a, limit) ==
                 (match Get(c, a)
                  case None => Answer(false, None)
                  case Some(r) => Answer(true, if HasExpired(r, limit) then None else Some(r.mac)))
            && Get(c', b) == if b == a && Get(c, a).Some? && !HasExpired(Get(c, a).value, limit)
                             then Some(Get(c, a).value.(use := Get(c, a).value.use + 1)) else Get(c, b)
  {
    hide Hash;
    var k := Find(TrueOnDifference, c, a);
    GetFind(c, a);
    if k < |c| {
      GetUpdated(c, k, c[k].(use := c[k].use + 1), b);
    }
  }

  function Addrs(c: seq<Rec>): set<Addr> {
    set r | r in c :: r.addr
  }

  lemma {:induction false} ExpireKeepsInv(c: seq<Rec>, i: nat, limit: int)
    requires ChainInv(c, i)
    ensures ChainInv(Expire(c, limit), i) && Addrs(Expire(c, limit)) <= Addrs(c)
  {
    hide Hash;
    if c != [] {
      var rest := c[1..];
      assert c == [c[0]] + rest;
      ExpireKeepsInv(rest, i, limit);
      AddrsCons(c[0], rest);
      assert c[0].addr !in Addrs(rest);
      if Aged(c[0], limit).Some? {
        var r := Aged(c[0], limit).value;
        AddrsCons(r, Expire(rest, limit));
        ConsKeepsInv(r, Expire(rest, limit), i);
      }
    }
  }

  lemma AddrsCons(r: Rec, c: seq<Rec>)
    ensures Addrs([r] + c) == {r.addr} + Addrs(c)
  {
    forall x | x in {r.addr} + Addrs(c) ensures x in Addrs([r] + c) {
      if x == r.addr {
        assert r in [r] + c;
      } else {
        var y :| y in c && y.addr == x;
        assert y in [r] + c;
      }
    }
  }

  lemma ConsKeepsInv(r: Rec, c: seq<Rec>, i: nat)
    requires ChainInv(c, i) && Hash(r.addr) == i && r.use >= 1 && r.addr !in Addrs(c)
    ensures ChainInv([r] + c, i)
  {
    hide Hash;
    assert forall j :: 0 <= j < |c| ==> c[j] in c && c[j].addr in Addrs(c);
  }

  lemma {:induction false} ExpireRefines(c: seq<Rec>, i: nat, limit: int, b: Addr)
    requires ChainInv(c, i)
    ensures Get(Expire(c, limit), b) == match Get(c, b) case None => None case Some(r) => Aged(r, limit)
  {
    hide Hash;
    if c != [] {
      var rest := Expire(c[1..], limit);
      ExpireRefines(c[1..], i, limit, b);
      if c[0].addr == b {
        GetFind(c[1..], b);
      }
      match Aged(c[0], limit) {
        case None =>
        case Some(r) => assert ([r] + rest)[1..] == rest;
      }
    }
  }

  /** Chain i after a step, and what it holds for an address of that bucket. */
  lemma ChainRefines(t: Table, m: Db, e: Event, i: nat, b: Addr)
    requires Represents(t, m) && i < NAT25_HASH_SIZE
    ensures var t', m' := TableStep(TrueOnDifference, t, e).0, MapStep(m, e).0;
            && ChainInv(t'[i], i)
            && (Hash(b) == i ==> if b in m' then Get(t'[i], b) == Some(m'[b]) else Get(t'[i], b) == None)
  {
    hide Hash, Insert, Used, Answered, Expire, Get, ChainInv;
    match e
    case EvInsert(a, mac, now) =>
      InsertRefines(t[Hash(a)], Hash(a), a, mac, now, b);
    case EvLookup(a, limit) =>
      LookupRefines(t[Hash(a)], Hash(a), a, limit, b);
    case EvExpire(limit) =>
      ExpireKeepsInv(t[i], i, limit);
      ExpireRefines(t[i], i, limit, b);
    case EvCleanup =>
      EmptyChain(i, b);
  }

  lemma StepRefines(t: Table, m: Db, e: Event)
    requires Represents(t, m)
    ensures Represents(TableStep(TrueOnDifference, t, e).0, MapStep(m, e).0)
    ensures TableStep(TrueOnDifference, t, e).1 == MapStep(m, e).1
  {
    hide Hash, Insert, Used, Answered, Expire, Get, ChainInv;
    var t', m' := TableStep(TrueOnDifference, t, e).0, MapStep(m, e).0;
    var any: Addr := seq(MAX_NETWORK_ADDR_LEN, i => 0);
    forall i | 0 <= i < |t'| ensures ChainInv(t'[i], i) {
      ChainRefines(t, m, e, i, any);
    }
    forall b: Addr
      ensures if b in m' then Get(t'[Hash(b)], b) == Some(m'[b]) else Get(t'[Hash(b)], b) == None
    {
      ChainRefines(t, m, e, Hash(b), b);
    }
    if e.EvLookup? {
      LookupRefines(t[Hash(e.a)], Hash(e.a), e.a, e.limit, e.a);
    }
  }

  lemma EmptyChain(i: nat, b: Addr)
    ensures ChainInv([], i) && Get([], b) == None
  {
  }

  /** With the comparison meaning equality, every run answers exactly as the map does. */
  lemma {:induction false} RunRefines(t: Table, m: Db, es: seq<Event>)
    requires Represents(t, m)
    ensures Represents(TableRun(TrueOnDifference, t, es).0, MapRun(m, es).0)
    ensures TableRun(TrueOnDifference, t, es).1 == MapRun(m, es).1
    decreases es
  {
    hide Represents, TableStep, MapStep;
    if es != [] {
      StepRefines(t, m, es[0]);
      RunRefines(TableStep(TrueOnDifference, t, es[0]).0, MapStep(m, es[0]).0, es[1..]);
    }
  }

  lemma EmptyRepresents()
    ensures Represents(EmptyTable(), map[])
  {
    hide Hash;
  }

  // ----- the other reading of the comparison -----

  /** All records of a chain have one address. */
  predicate OneAddr(c: seq<Rec>) {
    forall j, k :: 0 <= j < |c| && 0 <= k < |c| ==> c[j].addr == c[k].addr
  }

  lemma {:induction false} ExpireOneAddr(c: seq<Rec>, limit: int)
    requires OneAddr(c)
    ensures OneAddr(Expire(c, limit)) && Addrs(Expire(c, limit)) <= Addrs(c)
  {
    if c != [] {
      var rest := c[1..];
      assert c == [c[0]] + rest;
      AddrsCons(c[0], rest);
      ExpireOneAddr(rest, limit);
      match Aged(c[0], limit) {
        case None =>
        case Some(r) =>
          var kept := Expire(rest, limit);
          AddrsCons(r, kept);
          forall x | x in kept ensures x.addr == r.addr {
            assert x.addr in Addrs(rest);
            var y :| y in rest && y.addr == x.addr;
          }
      }
    }
  }

  /** If the helper is true on equality, no chain ever holds two addresses ... */
  lemma {:induction false} MixedUpChains(t: Table, es: seq<Event>)
    requires forall i :: 0 <= i < |t| ==> OneAddr(t[i])
    ensures var t' := TableRun(TrueOnEqual, t, es).0; forall i :: 0 <= i < |t'| ==> OneAddr(t'[i])
    decreases es
  {
    hide Hash;
    if es != [] {
      var t1 := TableStep(TrueOnEqual, t, es[0]).0;
      forall i | 0 <= i < |t1| ensures OneAddr(t1[i]) {
        if es[0].EvExpire? {
          ExpireOneAddr(t[i], es[0].limit);
        }
      }
      MixedUpChains(t1, es[1..]);
      assert TableRun(TrueOnEqual, t, es).0 == TableRun(TrueOnEqual, t1, es[1..]).0;
    }
  }

  /** ... and an address just inserted is found only if another one had its chain before, by that one's entry. */
  lemma MixedUpLookup(c: seq<Rec>, a: Addr, mac: Mac, now: int, limit: int)
    requires OneAddr(c) && now > limit
    ensures Answered(TrueOnEqual, Insert(TrueOnEqual, c, a, mac, now), a, limit) ==
              if c != [] && c[0].addr != a then Answer(true, Some(mac)) else Answer(false, None)
  {
    var k := Find(TrueOnEqual, c, a);
    var c' := Insert(TrueOnEqual, c, a, mac, now);
    if c != [] && c[0].addr != a {
      assert c'[0].addr == c[0].addr;
    } else {
      assert forall j :: 0 <= j < |c'| ==> c'[j].addr == a;
    }
  }

  /** The database answers as a map on every run exactly when the comparison means equality. */
  lemma RefinesExactly(h: Helper)
    ensures (forall es: seq<Event> :: TableRun(h, EmptyTable(), es).1 == MapRun(map[], es).1)
        <==> h == TrueOnDifference
  {
    if h == TrueOnDifference {
      EmptyRepresents();
      forall es: seq<Event> ensures TableRun(h, EmptyTable(), es).1 == MapRun(map[], es).1 {
        RunRefines(EmptyTable(), map[], es);
      }
    } else {
      var a: Addr := seq(MAX_NETWORK_ADDR_LEN, i => 0);
      var mac: Mac := [1, 1, 1, 1, 1, 1];
      var insert, lookup := EvInsert(a, mac, 1), EvLookup(a, 0);
      var es := [insert, lookup];
      MixedUpLookup([], a, mac, 1, 0);
      RunTwo(h, EmptyTable(), map[], insert, lookup);
      assert TableRun(h, EmptyTable(), es).1[1] == Some(Answer(false, None));
      assert MapRun(map[], es).1[1] == Some(Answer(true, Some(mac)));
    }
  }

  lemma RunTwo(h: Helper, t: Table, m: Db, one: Event, two: Event)
    ensures var (t1, out1) := TableStep(h, t, one);
            TableRun(h, t, [one, two]).1 == [out1, TableStep(h, t1, two).1]
    ensures var (m1, out1) := MapStep(m, one);
            MapRun(m, [one, two]).1 == [out1, MapStep(m1, two).1]
  {
    hide TableStep, MapStep;
    var es := [one, two];
    assert es[1..] == [two] && [two][1..] == [];
    var t1, m1 := TableStep(h, t, one).0, MapStep(m, one).0;
    var t2, m2 := TableStep(h, t1, two).0, MapStep(m1, two).0;
    assert TableRun(h, t2, []).1 == [] && MapRun(m2, []).1 == [];
    assert TableRun(h, t1, [two]).1 == [TableStep(h, t1, two).1];
    assert MapRun(m1, [two]).1 == [MapStep(m1, two).1];
  }

  // ----- ageing -----

  function Passes(es: seq<Event>): nat {
    if es == [] then 0 else (if es[0].EvExpire? then 1 else 0) + Passes(es[1..])
  }

  /** Events after time limit that neither clean up nor insert the address again. */
  predicate LeavesAlone(es: seq<Event>, a: Addr, limit: int) {
    forall e :: e in es ==> Harmless(e, a, limit)
  }

  predicate Harmless(e: Event, a: Addr, limit: int) {
    match e
    case EvInsert(b, _, _) => b != a
    case EvLookup(_, l) => l >= limit
    case EvExpire(l) => l >= limit
    case EvCleanup => false
  }

  lemma {:induction false} MapAgeing(m: Db, es: seq<Event>, a: Addr, limit: int)
    requires LeavesAlone(es, a, limit)
    requires a in m ==> HasExpired(m[a], limit) && m[a].use >= 1
    ensures var m' := MapRun(m, es).0;
            if a in m && Passes(es) < m[a].use then a in m' && m'[a] == m[a].(use := m[a].use - Passes(es))
            else a !in m'
    decreases es
  {
    if es != [] {
      assert Harmless(es[0], a, limit);
      MapAgeing(MapStep(m, es[0]).0, es[1..], a, limit);
    }
  }

  /**
   Ageing bound: an entry that has expired with use count u, and is left alone from then on, stays
   with u less one per expire pass and is gone from pass u on, however many lookups come between.
   */
  lemma AgeingBound(t: Table, m: Db, es: seq<Event>, a: Addr, limit: int)
    requires Represents(t, m) && a in m && HasExpired(m[a], limit) && LeavesAlone(es, a, limit)
    ensures m[a].use >= 1
    ensures var t' := TableRun(TrueOnDifference, t, es).0;
            Get(t'[Hash(a)], a) ==
              if Passes(es) < m[a].use then Some(m[a].(use := m[a].use - Passes(es))) else None
  {
    hide Hash;
    GetFind(t[Hash(a)], a);
    MapAgeing(m, es, a, limit);
    RunRefines(t, m, es);
  }

  /** An expire pass removes no fresh entry and changes none. */
  lemma FreshSurvives(t: Table, m: Db, a: Addr, limit: int)
    requires Represents(t, m) && a in m && !HasExpired(m[a], limit)
    ensures Get(TableStep(TrueOnDifference, t, EvExpire(limit)).0[Hash(a)], a) == Some(m[a])
  {
    hide Hash;
    StepRefines(t, m, EvExpire(limit));
  }

  /** Events up to the same time that neither clean up nor insert the address again. */
  predicate NotLater(e: Event, a: Addr, limit: int) {
    match e
    case EvInsert(b, _, _) => b != a
    case EvLookup(_, l) => l <= limit
    case EvExpire(l) => l <= limit
    case EvCleanup => false
  }

  lemma {:induction false} MapKeepsMac(m: Db, es: seq<Event>, a: Addr, limit: int)
    requires a in m && forall e :: e in es ==> NotLater(e, a, limit)
    ensures var m' := MapRun(m, es).0;
            && (a in m' ==> m'[a].mac == m[a].mac && m'[a].age == m[a].age)
            && (m[a].age > limit ==> a in m')
    decreases es
  {
    if es != [] {
      var m1 := MapStep(m, es[0]).0;
      assert NotLater(es[0], a, limit);
      if a in m1 {
        MapKeepsMac(m1, es[1..], a, limit);
      } else {
        MapStaysWithout(m1, es[1..], a, limit);
      }
    }
  }

  lemma {:induction false} MapStaysWithout(m: Db, es: seq<Event>, a: Addr, limit: int)
    requires a !in m && forall e :: e in es ==> NotLater(e, a, limit)
    ensures a !in MapRun(m, es).0
    decreases es
  {
    if es != [] {
      assert NotLater(es[0], a, limit);
      MapStaysWithout(MapStep(m, es[0]).0, es[1..], a, limit);
    }
  }

  /**
   An inserted address is good for 300 seconds of hz ticks: whatever other addresses do and however often
   it is looked up or aged until then, a lookup at time now gives the MAC exactly if fewer ticks have gone by ...
   */
  lemma MacFor300Seconds(t: Table, m: Db, a: Addr, mac: Mac, at: int, es: seq<Event>, now: int, hz: nat)
    requires Represents(t, m) && forall e :: e in es ==> NotLater(e, a, now - 300 * hz)
    ensures var t1 := TableStep(TrueOnDifference, t, EvInsert(a, mac, at)).0;
            var t2 := TableRun(TrueOnDifference, t1, es).0;
            var answer := TableStep(TrueOnDifference, t2, EvLookup(a, now - 300 * hz)).1;
            && answer.Some?
            && answer.value.mac == (if now - at < 300 * hz then Some(mac) else None)
            && (now - at < 300 * hz ==> answer.value.found)
  {
    hide Hash, Represents, TableStep;
    var t1, m1 := InsertedAs(t, m, a, mac, at);
    var t2, m2 := TableRun(TrueOnDifference, t1, es).0, MapRun(m1, es).0;
    RunRefines(t1, m1, es);
    MapKeepsMac(m1, es, a, now - 300 * hz);
    StepRefines(t2, m2, EvLookup(a, now - 300 * hz));
  }

  /** ... and an expire pass at time now leaves its entry as it is exactly then. */
  lemma KeptFor300Seconds(t: Table, m: Db, a: Addr, mac: Mac, at: int, es: seq<Event>, now: int, hz: nat)
    requires Represents(t, m) && forall e :: e in es ==> NotLater(e, a, now - 300 * hz)
    ensures var t1 := TableStep(TrueOnDifference, t, EvInsert(a, mac, at)).0;
            var t2 := TableRun(TrueOnDifference, t1, es).0;
            var t3 := TableStep(TrueOnDifference, t2, EvExpire(now - 300 * hz)).0;
            var before, after := Get(t2[Hash(a)], a), Get(t3[Hash(a)], a);
            if now - at < 300 * hz then before.Some? && after == before
            else before.Some? ==> after != before
  {
    hide Hash, TableStep, Get, TableInv;
    var t1, m1 := InsertedAs(t, m, a, mac, at);
    var t2, m2 := TableRun(TrueOnDifference, t1, es).0, MapRun(m1, es).0;
    RunRefines(t1, m1, es);
    MapKeepsMac(m1, es, a, now - 300 * hz);
    StepRefines(t2, m2, EvExpire(now - 300 * hz));
  }

  lemma InsertedAs(t: Table, m: Db, a: Addr, mac: Mac, at: int) returns (t1: Table, m1: Db)
    requires Represents(t, m)
    ensures t1 == TableStep(TrueOnDifference, t, EvInsert(a, mac, at)).0 && Represents(t1, m1)
    ensures a in m1 && m1[a].mac == mac && m1[a].age == at
  {
    hide Hash, Represents, TableStep;
    var e := EvInsert(a, mac, at);
    StepRefines(t, m, e);
    t1, m1 := TableStep(TrueOnDifference, t, e).0, MapStep(m, e).0;
  }
}
