/**
 The NAT2.5 database as the driver keeps it: entries on the heap, each bucket a chain through
 next_hash, each entry pointing back through pprev_hash at the pointer that points at it, and one
 cached entry. Every operation does to the chains what module Nat25 does to the table.
 */
module Nat25Db {
  import opened Common
  import opened Nat25

  const ZERO_MAC: Mac := [0, 0, 0, 0, 0, 0]
  const ZERO_IP: seq<bv8> := [0, 0, 0, 0]

  /** The place a pprev_hash points at. */
  datatype Slot = NoSlot | Bucket(i: nat) | NextOf(e: Entry)

  class Entry {
    var next_hash: Entry?
    var pprev_hash: Slot
    var use_count: int
    var macAddr: Mac
    var ageing_timer: int
    const networkAddr: Addr

    constructor (addr: Addr, mac: Mac, now: int)
      ensures networkAddr == addr && macAddr == mac && use_count == 1 && ageing_timer == now
    {
      next_hash, pprev_hash := null, NoSlot;
      use_count, macAddr, ageing_timer, networkAddr := 1, mac, now, addr;
    }

    function Shown(): Rec
      reads this
    {
      Rec(networkAddr, macAddr, use_count, ageing_timer)
    }
  }

  function Drop<T>(s: seq<T>, j: nat): (r: seq<T>)
    requires j < |s|
    ensures forall x :: x in r ==> x in s
    ensures |r| == |s| - 1 && forall k :: 0 <= k < |r| ==> r[k] == s[if k < j then k else k + 1]
  {
    s[..j] + s[j + 1..]
  }

  ghost function All(chains: seq<seq<Entry>>): set<Entry> {
    set i, e | 0 <= i < |chains| && e in chains[i] :: e
  }

  function At(c: seq<Entry>, j: nat): Entry? {
    if j < |c| then c[j] else null
  }

  /** The pointer that points at entry j of chain i. */
  function SlotOf(i: nat, c: seq<Entry>, j: nat): Slot
    requires j < |c|
  {
    if j == 0 then Bucket(i) else NextOf(c[j - 1])
  }

  /** These entries are linked both ways, in this order, and show these records of bucket i. */
  ghost predicate Linked(i: nat, c: seq<Entry>, recs: seq<Rec>)
    reads c
  {
    && |c| == |recs|
    && (forall j :: 0 <= j < |c| ==> c[j].next_hash == At(c, j + 1))
    && (forall j :: 0 <= j < |c| ==> c[j].pprev_hash == SlotOf(i, c, j))
    && (forall j :: 0 <= j < |c| ==> c[j].Shown() == recs[j])
    && (forall j :: 0 <= j < |c| ==> Hash(recs[j].addr) == i && recs[j].use >= 1)
    && (forall j, k :: 0 <= j < k < |c| ==> c[j] != c[k])
  }

  class NetDb {
    const helper: Helper
    const hz: nat
    const nethash: array<Entry?>
    var scdb_entry: Entry?
    var scdb_mac: Mac
    var scdb_ip: seq<bv8>
    ghost var chains: seq<seq<Entry>>
    ghost var table: Table
    ghost var repr: set<Entry>

    constructor (helper: Helper, hz: nat)
      ensures Valid() && scdb_entry == null && table == EmptyTable()
      ensures this.helper == helper && this.hz == hz && fresh(nethash) && repr == {}
    {
      this.helper, this.hz := helper, hz;
      nethash := new Entry?[NAT25_HASH_SIZE](i => null);
      scdb_entry, scdb_mac, scdb_ip := null, ZERO_MAC, ZERO_IP;
      chains := seq(NAT25_HASH_SIZE, i => []);
      table := EmptyTable();
      repr := {};
    }

    ghost predicate Valid()
      reads this, nethash, repr
    {
      && nethash.Length == |chains| == NAT25_HASH_SIZE
      && (forall i :: 0 <= i < |chains| ==> forall e :: e in chains[i] ==> e in repr)
      && (forall i :: 0 <= i < |chains| ==> nethash[i] == At(chains[i], 0) && Linked(i, chains[i], table[i]))
    }

    ghost function Entries(): set<Entry>
      reads this
    {
      All(chains)
    }

    /** The cached entry is null or in the table. */
    ghost predicate ScdbOk()
      reads this
    {
      scdb_entry != null ==> scdb_entry in Entries()
    }

    /** The cache as it was, or cleared because its entry has left the table. */
    twostate predicate ScdbKept()
      reads this
    {
      || (scdb_entry == old(scdb_entry) && scdb_mac == old(scdb_mac) && scdb_ip == old(scdb_ip))
      || (&& scdb_entry == null && scdb_mac == [0, 0, 0, 0, 0, 0] && scdb_ip == [0, 0, 0, 0]
          && old(scdb_entry) != null && old(scdb_entry) !in Entries())
    }

    ghost predicate Bucketed()
      requires |chains| == NAT25_HASH_SIZE
      reads this
    {
      forall i :: 0 <= i < NAT25_HASH_SIZE ==> forall e :: e in chains[i] ==> Hash(e.networkAddr) == i
    }

    /** Every entry is in the bucket of its address, so entries of different buckets are different. */
    lemma InBuckets()
      requires Valid()
      ensures Bucketed()
    {
      hide Hash, Linked;
      forall i, e | 0 <= i < NAT25_HASH_SIZE && e in chains[i] ensures Hash(e.networkAddr) == i {
        EntryInBucket(i, chains[i], table[i], e);
      }
    }

    /** The loop shared by lookup, insert and scdb_findEntry: the first entry the comparison picks. */
    method Walk(addr: Addr) returns (db: Entry?, ghost j: nat)
      requires Valid()
      ensures j == Find(helper, table[Hash(addr)], addr)
      ensures db == At(chains[Hash(addr)], Find(helper, table[Hash(addr)], addr))
    {
      hide Hash, Find;
      var h := Hash(addr);
      ghost var c, recs := chains[h], table[h];
      db, j := nethash[h], 0;
      while db != null
        invariant j <= |c| && db == At(c, j)
        invariant forall k :: 0 <= k < j ==> !Hit(helper, recs[k].addr, addr)
        decreases |c| - j
      {
        assert c[j].Shown() == recs[j];
        if Hit(helper, db.networkAddr, addr) {
          break;
        }
        db, j := db.next_hash, j + 1;
      }
      FindIs(helper, recs, addr, j);
    }

    /** __nat25_timeout */
    function Timeout(now: int): int {
      now - NAT25_AGEING_TIME * hz
    }

    /** __nat25_db_network_lookup_and_replace; mac is what is written into the packet, if anything. */
    method LookupAndReplace(addr: Addr, now: int) returns (found: bool, mac: Option<Mac>)
      requires Valid()
      modifies this`table, repr
      ensures Valid()
      ensures (table, Some(Answer(found, mac))) == TableStep(helper, old(table), EvLookup(addr, now - 300 * hz))
    {
      hide Hash, Find, Linked;
      ghost var h := Hash(addr);
      var db, j := Walk(addr);
      InBuckets();
      ChainLength(h, chains[h], table[h]);
      found, mac := db != null, None;
      assert table[h := table[h]] == table;
      if db != null {
        EntryShows(h, chains[h], table[h], j);
        if !(db.ageing_timer <= Timeout(now)) {
          mac := Some(db.macAddr);
          db.use_count := db.use_count + 1;
          Updated(h, chains[h], table[h], j);
          table := table[h := table[h][j := db.Shown()]];
        }
      }
    }

    /** __network_hash_link: the entry becomes the head of its chain. */
    method Link(ent: Entry)
      requires Valid() && ent !in repr && ent.use_count >= 1
      modifies this`chains, this`table, this`repr, nethash, repr, ent
      ensures Valid() && repr == old(repr) + {ent}
      ensures var h := Hash(ent.networkAddr);
              && chains == old(chains)[h := [ent] + old(chains)[h]]
              && table == old(table)[h := [old(ent.Shown())] + old(table)[h]]
    {
      hide Hash, Linked;
      var hash := Hash(ent.networkAddr);
      ghost var c, recs := chains[hash], table[hash];
      InBuckets();
      ChainLength(hash, c, recs);
      Apart(hash, c, recs);
      ent.next_hash := nethash[hash];
      if ent.next_hash != null {
        ent.next_hash.pprev_hash := NextOf(ent);
      }
      nethash[hash] := ent;
      ent.pprev_hash := Bucket(hash);
      Prepended(ent, hash, c, recs);
      chains := chains[hash := [ent] + c];
      table := table[hash := [ent.Shown()] + recs];
      repr := repr + {ent};
    }

    /** __nat25_db_network_insert */
    method NetworkInsert(mac: Mac, addr: Addr, now: int)
      requires Valid()
      modifies this`chains, this`table, this`repr, nethash, repr
      ensures Valid() && fresh(repr - old(repr))
      ensures table == TableStep(helper, old(table), EvInsert(addr, mac, now)).0
      ensures old(ScdbOk()) ==> ScdbOk()
    {
      hide Hash, Find, Linked;
      ghost var h := Hash(addr);
      var db, j := Walk(addr);
      InBuckets();
      ChainLength(h, chains[h], table[h]);
      if db != null {
        EntryShows(h, chains[h], table[h], j);
        db.macAddr := mac;
        db.ageing_timer := now;
        Updated(h, chains[h], table[h], j);
        table := table[h := table[h][j := db.Shown()]];
        return;
      }
      db := new Entry(addr, mac, now);
      ghost var was := chains;
      Link(db);
      assert forall i, e :: 0 <= i < NAT25_HASH_SIZE && e in was[i] ==> e in chains[i];
    }

    /** __network_hash_unlink: entry j of chain i is bypassed. */
    method HashUnlink(f: Entry, ghost i: nat, ghost j: nat)
      requires i < NAT25_HASH_SIZE == nethash.Length == |chains| && j < |chains[i]| && f == chains[i][j]
      requires Linked(i, chains[i], table[i])
      modifies nethash, chains[i]
      ensures f.next_hash == null && f.pprev_hash == NoSlot && Bypassed(chains[i], j)
      ensures nethash[i] == if j == 0 then At(chains[i], 1) else old(nethash[i])
      ensures forall k :: 0 <= k < nethash.Length && k != i ==> nethash[k] == old(nethash[k])
    {
      hide Hash, Linked;
      ghost var c := chains[i];
      Links(i, c, table[i], j);
      Apart(i, c, table[i]);
      var next := f.next_hash;
      match f.pprev_hash {
        case Bucket(b) => nethash[b] := next;
        case NextOf(p) => p.next_hash := next;
      }
      if next != null {
        next.pprev_hash := f.pprev_hash;
      }
      f.next_hash := null;
      f.pprev_hash := NoSlot;
    }

    /** What unlinking does to the table. */
    method Unlink(f: Entry, ghost i: nat, ghost j: nat)
      requires Valid() && i < NAT25_HASH_SIZE && j < |chains[i]| && f == chains[i][j]
      modifies this`chains, this`table, nethash, repr
      ensures Valid()
      ensures chains == old(chains)[i := Drop(old(chains)[i], j)]
      ensures table == old(table)[i := Drop(old(table)[i], j)]
      ensures Entries() == old(Entries()) - {f}
    {
      hide Hash, Linked, Bypassed;
      ghost var c, recs := chains[i], table[i];
      InBuckets();
      Apart(i, c, recs);
      DropGone(c, j);
      assert f in c && Hash(f.networkAddr) == i;
      assert forall k :: 0 <= k < |chains| && f in chains[k] ==> k == i;
      HashUnlink(f, i, j);
      Unlinked(i, c, recs, j);
      forall i' | 0 <= i' < |chains| && i' != i ensures Linked(i', chains[i'], table[i']) {
        forall e | e in chains[i'] ensures unchanged(e) {
          assert Hash(e.networkAddr) == i';
        }
        Untouched(i', chains[i'], table[i']);
      }
      chains := chains[i := Drop(c, j)];
      table := table[i := Drop(recs, j)];
      Dropped(old(chains), i, j, f);
    }

    /** The cache lets go of an entry, which then leaves the table and is freed. */
    method Forget(f: Entry, ghost i: nat, ghost j: nat)
      requires Valid() && i < NAT25_HASH_SIZE && j < |chains[i]| && f == chains[i][j]
      modifies this, nethash, repr
      ensures Valid() && repr == old(repr) && ScdbKept() && (old(ScdbOk()) ==> ScdbOk())
      ensures chains == old(chains)[i := Drop(old(chains)[i], j)]
      ensures table == old(table)[i := Drop(old(table)[i], j)]
      ensures Entries() == old(Entries()) - {f}
    {
      hide Hash, Linked, Drop, All;
      if scdb_entry == f {
        scdb_mac, scdb_ip := ZERO_MAC, ZERO_IP;
        scdb_entry := null;
      }
      Unlink(f, i, j);
    }

    /** One step of the expire pass, on entry j of chain i. */
    method ExpireOne(f: Entry, limit: int, ghost i: nat, ghost j: nat)
      requires Valid() && i < NAT25_HASH_SIZE && j < |chains[i]| && f == chains[i][j] && j < |table[i]|
      modifies this, nethash, repr
      ensures Valid() && repr == old(repr) && ScdbKept() && (old(ScdbOk()) ==> ScdbOk())
      ensures Entries() <= old(Entries())
      ensures match Aged(old(table)[i][j], limit)
              case None =>
                && chains == old(chains)[i := Drop(old(chains)[i], j)]
                && table == old(table)[i := Drop(old(table)[i], j)]
              case Some(r) => chains == old(chains) && table == old(table)[i := old(table)[i][j := r]]
    {
      hide Hash, Linked;
      EntryShows(i, chains[i], table[i], j);
      assert table[i][j := table[i][j]] == table[i];
      if f.ageing_timer <= limit {
        if f.use_count == 1 {
          Forget(f, i, j);
        } else {
          InBuckets();
          f.use_count := f.use_count - 1;
          Updated(i, chains[i], table[i], j);
          table := table[i := table[i][j := f.Shown()]];
        }
      }
    }

    /** The inner loop of nat25_db_expire. */
    method ExpireChain(limit: int, i: nat)
      requires Valid() && i < NAT25_HASH_SIZE
      modifies this, nethash, repr
      ensures Valid() && repr == old(repr) && ScdbKept() && (old(ScdbOk()) ==> ScdbOk())
      ensures Entries() <= old(Entries())
      ensures table == old(table)[i := Expire(old(table)[i], limit)]
    {
      hide Hash, Linked, ScdbOk, Aged, Expire, Drop;
      ghost var c0, recs := chains[i], table[i];
      ChainLength(i, c0, recs);
      ghost var n: nat, done: seq<Rec> := 0, [];
      ExpireNothing(limit);
      assert done + recs[n..] == recs;
      var f := nethash[i];
      while f != null
        invariant Valid() && repr == old(repr) && ScdbKept() && (old(ScdbOk()) ==> ScdbOk())
        invariant Entries() <= old(Entries())
        invariant n <= |recs| == |c0| && done == Expire(recs[..n], limit)
        invariant table == old(table)[i := done + recs[n..]]
        invariant |chains[i]| == |done| + |c0| - n && chains[i][|done|..] == c0[n..]
        invariant f == At(chains[i], |done|)
        decreases |recs| - n
      {
        ghost var j := |done|;
        ChainLength(i, chains[i], table[i]);
        Links(i, chains[i], table[i], j);
        var g := f.next_hash;
        ExpireStep(recs, n, limit);
        ghost var was := chains[i];
        assert table[i][j] == recs[n];
        ExpireOne(f, limit, i, j);
        Advance(was, c0, n, j);
        match Aged(recs[n], limit) {
          case None =>
            DropMiddle(done, recs[n..]);
          case Some(r) =>
            SetMiddle(done, recs[n..], r);
            done := done + [r];
        }
        n := n + 1;
        f := g;
      }
      assert n == |recs|;
      assert recs[..n] == recs && done + recs[n..] == done;
    }

    /** nat25_db_expire */
    method DbExpire(now: int)
      requires Valid()
      modifies this, nethash, repr
      ensures Valid() && repr == old(repr) && ScdbKept() && (old(ScdbOk()) ==> ScdbOk())
      ensures Entries() <= old(Entries())
      ensures table == TableStep(helper, old(table), EvExpire(now - 300 * hz)).0
    {
      hide Hash, Linked, ScdbOk, Expire;
      var i := 0;
      while i < NAT25_HASH_SIZE
        invariant i <= NAT25_HASH_SIZE
        invariant Valid() && repr == old(repr) && ScdbKept() && (old(ScdbOk()) ==> ScdbOk())
        invariant Entries() <= old(Entries())
        invariant forall k :: 0 <= k < i ==> table[k] == Expire(old(table)[k], now - 300 * hz)
        invariant forall k :: i <= k < NAT25_HASH_SIZE ==> table[k] == old(table)[k]
      {
        ExpireChain(Timeout(now), i);
        i := i + 1;
      }
    }

    /** nat25_db_cleanup */
    method DbCleanup()
      requires Valid()
      modifies this, nethash, repr
      ensures Valid() && repr == old(repr) && ScdbKept() && (old(ScdbOk()) ==> scdb_entry == null)
      ensures Entries() == {} && table == TableStep(helper, old(table), EvCleanup).0
    {
      hide Hash, Linked;
      var i := 0;
      while i < NAT25_HASH_SIZE
        invariant i <= NAT25_HASH_SIZE
        invariant Valid() && repr == old(repr) && ScdbKept() && (old(ScdbOk()) ==> ScdbOk())
        invariant Entries() <= old(Entries())
        invariant forall k :: 0 <= k < i ==> chains[k] == []
      {
        var f := nethash[i];
        ChainLength(i, chains[i], table[i]);
        while f != null
          invariant Valid() && repr == old(repr) && ScdbKept() && (old(ScdbOk()) ==> ScdbOk())
          invariant Entries() <= old(Entries())
          invariant forall k :: 0 <= k < i ==> chains[k] == []
          invariant f == At(chains[i], 0)
          decreases |chains[i]|
        {
          Links(i, chains[i], table[i], 0);
          var g := f.next_hash;
          Forget(f, i, 0);
          f := g;
        }
        i := i + 1;
      }
      forall k | 0 <= k < NAT25_HASH_SIZE ensures table[k] == [] {
        ChainLength(k, chains[k], table[k]);
      }
    }

    /** scdb_findEntry */
    method ScdbFindEntry(addr: Addr) returns (db: Entry?)
      requires Valid()
      ensures db == At(chains[Hash(addr)], Find(helper, table[Hash(addr)], addr))
    {
      ghost var j;
      db, j := Walk(addr);
    }
  }

  // ----- facts about one chain -----

  lemma EntryInBucket(i: nat, c: seq<Entry>, recs: seq<Rec>, e: Entry)
    requires Linked(i, c, recs) && e in c
    ensures Hash(e.networkAddr) == i
  {
    hide Hash;
    var j :| 0 <= j < |c| && c[j] == e;
    assert e.Shown() == recs[j];
  }

  lemma ChainLength(i: nat, c: seq<Entry>, recs: seq<Rec>)
    requires Linked(i, c, recs)
    ensures |c| == |recs|
  {
  }

  lemma EntryShows(i: nat, c: seq<Entry>, recs: seq<Rec>, j: nat)
    requires Linked(i, c, recs) && j < |c|
    ensures |c| == |recs| && c[j].Shown() == recs[j] && recs[j].use >= 1
    ensures c[j] in c
  {
    hide Hash;
  }

  lemma Links(i: nat, c: seq<Entry>, recs: seq<Rec>, j: nat)
    requires Linked(i, c, recs) && j < |c|
    ensures |c| == |recs|
    ensures c[j] in c && c[j].next_hash == At(c, j + 1)
    ensures j + 1 < |c| ==> c[j + 1] in c && c[j + 1] != c[j]
    ensures c[j].pprev_hash == SlotOf(i, c, j)
    ensures j > 0 ==> c[j - 1] in c && c[j - 1] != c[j]
    ensures 0 < j && j + 1 < |c| ==> c[j - 1] != c[j + 1]
  {
    hide Hash;
  }

  /** Changing an entry's contents changes the record it shows and no link. */
  twostate lemma Updated(new i: nat, c: seq<Entry>, new recs: seq<Rec>, new j: nat)
    requires old(Linked(i, c, recs)) && j < |c|
    requires forall k :: 0 <= k < |c| && c[k] != c[j] ==> unchanged(c[k])
    requires c[j].next_hash == old(c[j].next_hash) && c[j].pprev_hash == old(c[j].pprev_hash) && c[j].use_count >= 1
    ensures |c| == |recs| && Linked(i, c, recs[j := c[j].Shown()])
  {
    hide Hash;
  }

  twostate lemma Untouched(new i: nat, c: seq<Entry>, new recs: seq<Rec>)
    requires old(Linked(i, c, recs)) && forall e :: e in c ==> unchanged(e)
    ensures Linked(i, c, recs)
  {
    hide Hash;
    assert forall k :: 0 <= k < |c| ==> c[k] in c;
  }

  /** A new head; the old one now points back at it. */
  twostate predicate Pushed(new ent: Entry, new i: nat, c: seq<Entry>)
    reads ent, c
  {
    && ent.next_hash == At(c, 0) && ent.pprev_hash == Bucket(i)
    && (forall k :: 0 <= k < |c| ==> c[k].Shown() == old(c[k].Shown()) && c[k].next_hash == old(c[k].next_hash))
    && (forall k :: 0 < k < |c| ==> c[k].pprev_hash == old(c[k].pprev_hash))
    && (c != [] ==> c[0].pprev_hash == NextOf(ent))
  }

  twostate lemma PrependedAt(new ent: Entry, new i: nat, c: seq<Entry>, new recs: seq<Rec>, new k: nat)
    requires old(Linked(i, c, recs)) && Pushed(ent, i, c) && k <= |c|
    ensures var c' := [ent] + c;
            && c'[k].next_hash == At(c', k + 1) && c'[k].pprev_hash == SlotOf(i, c', k)
            && c'[k].Shown() == ([ent.Shown()] + recs)[k]
  {
    hide Hash;
    var c' := [ent] + c;
    if k > 0 {
      assert c'[k] == c[k - 1];
      assert old(c[k - 1].Shown()) == recs[k - 1];
      assert old(c[k - 1].next_hash) == At(c, k);
      assert old(c[k - 1].pprev_hash) == SlotOf(i, c, k - 1);
    }
  }

  twostate lemma Prepended(new ent: Entry, new i: nat, c: seq<Entry>, new recs: seq<Rec>)
    requires old(Linked(i, c, recs)) && Pushed(ent, i, c) && ent !in c
    requires Hash(ent.networkAddr) == i && ent.use_count >= 1
    ensures Linked(i, [ent] + c, [ent.Shown()] + recs)
  {
    hide Hash, Pushed;
    var c', recs' := [ent] + c, [ent.Shown()] + recs;
    forall k | 0 <= k < |c'|
      ensures c'[k].next_hash == At(c', k + 1) && c'[k].pprev_hash == SlotOf(i, c', k)
      ensures c'[k].Shown() == recs'[k]
    {
      PrependedAt(ent, i, c, recs, k);
    }
  }

  lemma Apart(i: nat, c: seq<Entry>, recs: seq<Rec>)
    requires Linked(i, c, recs)
    ensures forall k, l :: 0 <= k < l < |c| ==> c[k] != c[l]
  {
    hide Hash;
  }

  /** Entry j has been taken out: its neighbours are linked to each other, the rest is as it was. */
  twostate predicate Bypassed(c: seq<Entry>, new j: nat)
    requires j < |c|
    reads c
  {
    && (forall k :: 0 <= k < |c| && k != j ==> c[k].Shown() == old(c[k].Shown()))
    && (forall k :: 0 <= k < |c| && k != j && k + 1 != j ==> c[k].next_hash == old(c[k].next_hash))
    && (forall k :: 0 <= k < |c| && k != j && k != j + 1 ==> c[k].pprev_hash == old(c[k].pprev_hash))
    && (j > 0 ==> c[j - 1].next_hash == old(c[j].next_hash))
    && (j + 1 < |c| ==> c[j + 1].pprev_hash == old(c[j].pprev_hash))
  }

  lemma Dropped(chains: seq<seq<Entry>>, i: nat, j: nat, f: Entry)
    requires i < |chains| && j < |chains[i]| && f == chains[i][j] && f !in Drop(chains[i], j)
    requires forall k :: 0 <= k < |chains| && k != i ==> f !in chains[k]
    ensures All(chains[i := Drop(chains[i], j)]) == All(chains) - {f}
  {
    var chains' := chains[i := Drop(chains[i], j)];
    forall k, e | 0 <= k < |chains| && e in chains[k] && e != f ensures e in chains'[k] {
      if k == i {
        var m :| 0 <= m < |chains[i]| && chains[i][m] == e;
        assert chains'[i][if m < j then m else m - 1] == e;
      }
    }
  }

  lemma ExpireNothing(limit: int)
    ensures Expire([], limit) == []
  {
  }

  lemma {:induction false} ExpireSnoc(c: seq<Rec>, r: Rec, limit: int)
    ensures Expire(c + [r], limit) == Expire(c, limit) + match Aged(r, limit) case None => [] case Some(x) => [x]
  {
    if c == [] {
      assert Expire([r], limit) == match Aged(r, limit) case None => [] case Some(x) => [x];
    } else {
      assert (c + [r])[1..] == c[1..] + [r];
      ExpireSnoc(c[1..], r, limit);
    }
  }

  lemma ExpireStep(recs: seq<Rec>, n: nat, limit: int)
    requires n < |recs|
    ensures Expire(recs[..n + 1], limit) ==
              Expire(recs[..n], limit) + match Aged(recs[n], limit) case None => [] case Some(x) => [x]
  {
    ExpireSnoc(recs[..n], recs[n], limit);
    assert recs[..n + 1] == recs[..n] + [recs[n]];
  }

  lemma DropMiddle<T>(s: seq<T>, t: seq<T>)
    requires t != []
    ensures Drop(s + t, |s|) == s + t[1..]
  {
  }

  lemma SetMiddle<T>(s: seq<T>, t: seq<T>, x: T)
    requires t != []
    ensures (s + t)[|s| := x] == s + [x] + t[1..]
  {
  }

  /** The rest of the chain, after its entry j has stayed or left. */
  lemma Advance(c: seq<Entry>, c0: seq<Entry>, n: nat, j: nat)
    requires j < |c| && n < |c0| && c[j..] == c0[n..]
    ensures c[j + 1..] == c0[n + 1..] && Drop(c, j)[j..] == c0[n + 1..]
    ensures At(Drop(c, j), j) == At(c, j + 1)
  {
    assert c[j + 1..] == c[j..][1..];
    assert c0[n + 1..] == c0[n..][1..];
  }

  lemma AtDrop(c: seq<Entry>, j: nat, k: nat)
    requires j < |c|
    ensures At(Drop(c, j), k) == At(c, if k < j then k else k + 1)
  {
  }

  twostate lemma WereLinked(new i: nat, c: seq<Entry>, new recs: seq<Rec>, new k: nat)
    requires old(Linked(i, c, recs)) && k < |c|
    ensures |c| == |recs| && old(c[k].Shown()) == recs[k]
    ensures old(c[k].next_hash) == At(c, k + 1) && old(c[k].pprev_hash) == SlotOf(i, c, k)
  {
    hide Hash;
  }

  /** The links of entry k of the shortened chain. */
  twostate lemma UnlinkedAt(new i: nat, c: seq<Entry>, new recs: seq<Rec>, new j: nat, new k: nat)
    requires old(Linked(i, c, recs)) && j < |c| == |recs| && k < |c| - 1 && Bypassed(c, j)
    ensures var c' := Drop(c, j);
            && c'[k].next_hash == At(c', k + 1) && c'[k].pprev_hash == SlotOf(i, c', k)
            && c'[k].Shown() == Drop(recs, j)[k]
  {
    hide Hash, Linked, Drop;
    var was := if k < j then k else k + 1;
    AtDrop(c, j, k + 1);
    WereLinked(i, c, recs, was);
    WereLinked(i, c, recs, j);
  }

  lemma DropApart(c: seq<Entry>, j: nat)
    requires j < |c| && forall k, l :: 0 <= k < l < |c| ==> c[k] != c[l]
    ensures forall k, l :: 0 <= k < l < |c| - 1 ==> Drop(c, j)[k] != Drop(c, j)[l]
  {
    forall k, l | 0 <= k < l < |c| - 1 ensures Drop(c, j)[k] != Drop(c, j)[l] {
      assert c[if k < j then k else k + 1] != c[if l < j then l else l + 1];
    }
  }

  lemma DropGone(c: seq<Entry>, j: nat)
    requires j < |c| && forall k, l :: 0 <= k < l < |c| ==> c[k] != c[l]
    ensures c[j] !in Drop(c, j)
  {
  }

  twostate lemma Unlinked(new i: nat, c: seq<Entry>, new recs: seq<Rec>, new j: nat)
    requires old(Linked(i, c, recs)) && j < |c| && Bypassed(c, j)
    ensures |c| == |recs| && Linked(i, Drop(c, j), Drop(recs, j))
  {
    hide Hash, Bypassed;
    WereLinked(i, c, recs, j);
    var c', recs' := Drop(c, j), Drop(recs, j);
    forall k | 0 <= k < |c'|
      ensures c'[k].next_hash == At(c', k + 1) && c'[k].pprev_hash == SlotOf(i, c', k)
      ensures c'[k].Shown() == recs'[k]
    {
      UnlinkedAt(i, c, recs, j, k);
    }
    DropApart(c, j);
  }

  lemma FindIs(h: Helper, c: seq<Rec>, a: Addr, k: nat)
    requires k <= |c| && forall j :: 0 <= j < k ==> !Hit(h, c[j].addr, a)
    requires k < |c| ==> Hit(h, c[k].addr, a)
    ensures Find(h, c, a) == k
  {
  }
}
