/** The register-state cache of Gparser.c: 128 buckets threaded on an LRU list
    and on 256 collision chains, with a hint in every bucket and cursor. */
module RsCache {
  import opened Words
  import opened Rules

  const CACHE_SIZE: nat := 128
  const HASH_SIZE: nat := 256
  const NONE: nat := 0xffff // (unsigned short) -1

  datatype Bucket = Bucket(
    row: Row, ip: Word, retCol: Word,
    lruChain: nat, collChain: nat, hint: nat,
    valid: bool, signalFrame: bool)

  /** What a bucket remembers about its ip. */
  datatype Entry = Entry(ip: Word, row: Row, retCol: Word)

  function EntryOf(b: Bucket): Entry {
    Entry(b.ip, b.row, b.retCol)
  }

  /** Multiplicative hash: the top eight bits of ip * floor(2^64 / phi). */
  function Hash(ip: Word): (h: nat)
    ensures h < HASH_SIZE
  {
    Wrap(ip * 0x9e37_79b9_7f4a_7c16) / 0x100_0000_0000_0000
  }

  // ----- the structure, as values -----

  ghost predicate Distinct(s: seq<nat>) {
    forall j, k :: 0 <= j < k < |s| ==> s[j] != s[k]
  }

  /** `order` is the LRU list from `head` to `tail`. */
  ghost predicate LruOk(bs: seq<Bucket>, head: nat, tail: nat, order: seq<nat>) {
    && |bs| == CACHE_SIZE == |order|
    && (forall k :: 0 <= k < CACHE_SIZE ==> order[k] < CACHE_SIZE)
    && Distinct(order)
    && head == order[0] && tail == order[CACHE_SIZE - 1]
    && forall k {:trigger bs[order[k]]} :: 0 <= k < CACHE_SIZE - 1 ==> bs[order[k]].lruChain == order[k + 1]
  }

  /** The index stored in front of position `k` of a chain. */
  function Link(chain: seq<nat>, k: nat): nat {
    if k < |chain| then chain[k] else NONE
  }

  ghost predicate Linked(bs: seq<Bucket>, chain: seq<nat>, h: nat, k: nat)
    requires |bs| == CACHE_SIZE && k < |chain|
  {
    var b := chain[k];
    && b < CACHE_SIZE
    && bs[b].ip != 0 && Hash(bs[b].ip) == h
    && bs[b].collChain == Link(chain, k + 1)
  }

  /** `chain` is the collision chain of slot `h`, which starts at `first`. */
  ghost predicate ChainOk(bs: seq<Bucket>, first: nat, chain: seq<nat>, h: nat)
    requires |bs| == CACHE_SIZE
  {
    && Distinct(chain)
    && first == Link(chain, 0)
    && forall k :: 0 <= k < |chain| ==> Linked(bs, chain, h, k)
  }

  ghost predicate ChainsOk(bs: seq<Bucket>, hash: seq<nat>, chains: seq<seq<nat>>) {
    && |bs| == CACHE_SIZE && |hash| == HASH_SIZE == |chains|
    && forall h :: 0 <= h < HASH_SIZE ==> ChainOk(bs, hash[h], chains[h], h)
  }

  /** Bucket `i` is on the chain of its ip, unless it is free or is `skip`. */
  ghost predicate Chained(bs: seq<Bucket>, chains: seq<seq<nat>>, i: nat)
    requires |chains| == HASH_SIZE && i < |bs|
  {
    bs[i].ip != 0 ==> i in chains[Hash(bs[i].ip)]
  }

  /** The fields of the buckets on their own. */
  ghost predicate BucketsOk(bs: seq<Bucket>) {
    && (forall i :: 0 <= i < |bs| ==> bs[i].hint < CACHE_SIZE && (bs[i].valid <==> bs[i].ip != 0))
    && (forall i :: 0 <= i < |bs| ==> bs[i].valid ==> !bs[i].signalFrame)
    && forall i, j :: 0 <= i < j < |bs| && bs[i].ip != 0 ==> bs[i].ip != bs[j].ip
  }

  /** The buckets in use are the last `filled` of the LRU list. */
  ghost predicate FilledOk(bs: seq<Bucket>, order: seq<nat>, filled: nat)
    requires |bs| == CACHE_SIZE == |order| && forall k :: 0 <= k < CACHE_SIZE ==> order[k] < CACHE_SIZE
  {
    && filled <= CACHE_SIZE
    && forall k {:trigger bs[order[k]]} :: 0 <= k < CACHE_SIZE ==> (bs[order[k]].ip != 0 <==> CACHE_SIZE - filled <= k)
  }

  /** The three index structures together. */
  ghost predicate Structure(bs: seq<Bucket>, hash: seq<nat>, head: nat, tail: nat,
                            order: seq<nat>, chains: seq<seq<nat>>, filled: nat) {
    && LruOk(bs, head, tail, order)
    && ChainsOk(bs, hash, chains)
    && (forall i :: 0 <= i < CACHE_SIZE ==> Chained(bs, chains, i))
    && BucketsOk(bs)
    && FilledOk(bs, order, filled)
  }

  /** The cached entries, oldest first. */
  function EntriesOf(bs: seq<Bucket>, order: seq<nat>, filled: nat): (es: seq<Entry>)
    requires |bs| == CACHE_SIZE == |order| && filled <= CACHE_SIZE
    requires forall k :: 0 <= k < CACHE_SIZE ==> order[k] < CACHE_SIZE
    ensures |es| == filled
  {
    seq(filled, k requires 0 <= k < filled => EntryOf(bs[order[CACHE_SIZE - filled + k]]))
  }

  // ----- steps of the structure -----

  /** Moving the head of the LRU list to its tail. */
  lemma LruRotate(bs: seq<Bucket>, head: nat, tail: nat, order: seq<nat>)
    requires LruOk(bs, head, tail, order)
    ensures var bs' := bs[tail := bs[tail].(lruChain := head)];
            LruOk(bs', bs[head].lruChain, head, order[1..] + [head])
  {
    var bs' := bs[tail := bs[tail].(lruChain := head)];
    var order' := order[1..] + [head];
    assert bs[order[0]].lruChain == order[1];
    forall k | 0 <= k < CACHE_SIZE - 1
      ensures bs'[order'[k]].lruChain == order'[k + 1]
    {
      assert order'[k] == order[k + 1];
      assert bs[order[k + 1]] == bs[order[k + 1]];
    }
  }

  /** Every bucket is on the LRU list. */
  lemma LruVisitsAll(order: seq<nat>, i: nat)
    requires |order| == CACHE_SIZE && Distinct(order)
    requires forall k :: 0 <= k < CACHE_SIZE ==> order[k] < CACHE_SIZE
    requires i < CACHE_SIZE
    ensures i in order
  {
    hide Below;
    var seen := set k | 0 <= k < |order| :: order[k];
    DistinctSize(order);
    if i !in seen {
      SubsetSize(seen, Below(CACHE_SIZE) - {i});
      assert false;
    }
  }

  function Below(n: nat): (s: set<nat>)
    ensures |s| == n && forall k :: k in s <==> 0 <= k < n
  {
    if n == 0 then {} else Below(n - 1) + {n - 1}
  }

  lemma {:induction false} DistinctSize(s: seq<nat>)
    requires Distinct(s)
    ensures |set k | 0 <= k < |s| :: s[k]| == |s|
  {
    if s != [] {
      var n := |s| - 1;
      DistinctSize(s[..n]);
      assert (set k | 0 <= k < |s| :: s[k]) == (set k | 0 <= k < n :: s[..n][k]) + {s[n]};
    }
  }

  lemma {:induction false} SubsetSize(a: set<nat>, b: set<nat>)
    requires a <= b
    ensures |a| <= |b|
  {
    if a != {} {
      var x :| x in a;
      SubsetSize(a - {x}, b - {x});
    }
  }

  /** A bucket is on no chain but that of its own ip. */
  lemma OneChain(bs: seq<Bucket>, hash: seq<nat>, chains: seq<seq<nat>>, h: nat, b: nat)
    requires ChainsOk(bs, hash, chains) && h < HASH_SIZE && b in chains[h]
    ensures b < CACHE_SIZE && bs[b].ip != 0 && Hash(bs[b].ip) == h
  {
    var k :| 0 <= k < |chains[h]| && chains[h][k] == b;
    assert Linked(bs, chains[h], h, k);
  }

  function Without(chain: seq<nat>, p: nat): seq<nat>
    requires p < |chain|
  {
    chain[..p] + chain[p + 1..]
  }

  /** Unlinking the bucket at position `p` of a chain. */
  lemma UnlinkChain(bs: seq<Bucket>, bs': seq<Bucket>, first: nat, first': nat, chain: seq<nat>, h: nat, p: nat)
    requires |bs| == CACHE_SIZE && ChainOk(bs, first, chain, h) && p < |chain|
    requires Linked(bs, chain, h, p)
    requires if p == 0 then bs' == bs && first' == bs[chain[p]].collChain
             else first' == first && Linked(bs, chain, h, p - 1)
                  && bs' == bs[chain[p - 1] := bs[chain[p - 1]].(collChain := bs[chain[p]].collChain)]
    ensures ChainOk(bs', first', Without(chain, p), h)
  {
    var c' := Without(chain, p);
    forall k | 0 <= k < |c'|
      ensures Linked(bs', c', h, k)
    {
      assert Linked(bs, chain, h, if k < p then k else k + 1);
    }
  }

  ghost predicate SameLink(bs: seq<Bucket>, bs': seq<Bucket>, i: nat) {
    i < |bs| && i < |bs'| && bs'[i].ip == bs[i].ip && bs'[i].collChain == bs[i].collChain
  }

  /** A change of one bucket leaves the other chains alone. */
  lemma OtherChain(bs: seq<Bucket>, bs': seq<Bucket>, first: nat, chain: seq<nat>, h: nat)
    requires |bs| == CACHE_SIZE == |bs'| && ChainOk(bs, first, chain, h)
    requires forall k :: 0 <= k < |chain| ==> SameLink(bs, bs', chain[k])
    ensures ChainOk(bs', first, chain, h)
  {
    forall k | 0 <= k < |chain|
      ensures Linked(bs', chain, h, k)
    {
      assert Linked(bs, chain, h, k);
    }
  }

  /** Putting a bucket in front of a chain. */
  lemma PushChain(bs: seq<Bucket>, bs': seq<Bucket>, first: nat, chain: seq<nat>, x: nat, h: nat)
    requires |bs| == CACHE_SIZE == |bs'| && ChainOk(bs, first, chain, h)
    requires x < CACHE_SIZE && x !in chain
    requires bs'[x].ip != 0 && Hash(bs'[x].ip) == h && bs'[x].collChain == first
    requires forall i :: 0 <= i < CACHE_SIZE && i != x ==> bs'[i] == bs[i]
    ensures ChainOk(bs', x, [x] + chain, h)
  {
    var c' := [x] + chain;
    forall k | 0 <= k < |c'|
      ensures Linked(bs', c', h, k)
    {
      if k > 0 {
        assert Linked(bs, chain, h, k - 1);
      }
    }
  }

  lemma ChainsFrame(bs: seq<Bucket>, bs': seq<Bucket>, hash: seq<nat>, chains: seq<seq<nat>>)
    requires ChainsOk(bs, hash, chains) && |bs'| == CACHE_SIZE
    requires forall i :: 0 <= i < CACHE_SIZE ==> SameLink(bs, bs', i)
    ensures ChainsOk(bs', hash, chains)
  {
    forall h | 0 <= h < HASH_SIZE
      ensures ChainOk(bs', hash[h], chains[h], h)
    {
      assert ChainOk(bs, hash[h], chains[h], h);
      forall k | 0 <= k < |chains[h]|
        ensures SameLink(bs, bs', chains[h][k])
      {
        assert Linked(bs, chains[h], h, k);
      }
      OtherChain(bs, bs', hash[h], chains[h], h);
    }
  }

  ghost predicate OnNoChain(chains: seq<seq<nat>>, x: nat) {
    forall g :: 0 <= g < |chains| ==> x !in chains[g]
  }

  /** Unlinking, seen from all chains. */
  lemma UnlinkChains(bs: seq<Bucket>, bs': seq<Bucket>, hash: seq<nat>, hash': seq<nat>,
                     chains: seq<seq<nat>>, h: nat, p: nat)
    requires ChainsOk(bs, hash, chains) && h < HASH_SIZE && p < |chains[h]|
    requires var chain := chains[h];
             && Linked(bs, chain, h, p)
             && if p == 0 then bs' == bs && hash' == hash[h := bs[chain[p]].collChain]
                else hash' == hash && Linked(bs, chain, h, p - 1)
                     && bs' == bs[chain[p - 1] := bs[chain[p - 1]].(collChain := bs[chain[p]].collChain)]
    ensures ChainsOk(bs', hash', chains[h := Without(chains[h], p)])
    ensures OnNoChain(chains[h := Without(chains[h], p)], chains[h][p])
  {
    var chains' := chains[h := Without(chains[h], p)];
    var x := chains[h][p];
    forall g | 0 <= g < HASH_SIZE
      ensures ChainOk(bs', hash'[g], chains'[g], g) && x !in chains'[g]
    {
      assert ChainOk(bs, hash[g], chains[g], g);
      if g == h {
        UnlinkChain(bs, bs', hash[h], hash'[h], chains[h], h, p);
      } else {
        forall k | 0 <= k < |chains[g]|
          ensures SameLink(bs, bs', chains[g][k])
        {
          assert Linked(bs, chains[g], g, k);
        }
        OtherChain(bs, bs', hash[g], chains[g], g);
        if x in chains[g] {
          OneChain(bs, hash, chains, g, x);
          assert false;
        }
      }
    }
  }

  /** Linking a free bucket in front of the chain of its new ip. */
  lemma PushChains(bs: seq<Bucket>, bs': seq<Bucket>, hash: seq<nat>, chains: seq<seq<nat>>, x: nat)
    requires ChainsOk(bs, hash, chains) && |bs'| == CACHE_SIZE && x < CACHE_SIZE
    requires OnNoChain(chains, x)
    requires bs'[x].ip != 0 && bs'[x].collChain == hash[Hash(bs'[x].ip)]
    requires forall i :: 0 <= i < CACHE_SIZE && i != x ==> bs'[i] == bs[i]
    ensures var h := Hash(bs'[x].ip); ChainsOk(bs', hash[h := x], chains[h := [x] + chains[h]])
  {
    var h := Hash(bs'[x].ip);
    var hash', chains' := hash[h := x], chains[h := [x] + chains[h]];
    forall g | 0 <= g < HASH_SIZE
      ensures ChainOk(bs', hash'[g], chains'[g], g)
    {
      assert ChainOk(bs, hash[g], chains[g], g);
      if g == h {
        PushChain(bs, bs', hash[h], chains[h], x, h);
      } else {
        forall k | 0 <= k < |chains[g]|
          ensures SameLink(bs, bs', chains[g][k])
        {
          assert Linked(bs, chains[g], g, k);
        }
        OtherChain(bs, bs', hash[g], chains[g], g);
      }
    }
  }

  lemma MemberWithout(chain: seq<nat>, p: nat, i: nat)
    requires p < |chain| && i in chain && i != chain[p]
    ensures i in Without(chain, p)
  {
    var k :| 0 <= k < |chain| && chain[k] == i;
    assert Without(chain, p)[if k < p then k else k - 1] == i;
  }

  /** Equal but for the two chain fields. */
  ghost predicate SameBody(bs: seq<Bucket>, bs': seq<Bucket>, i: nat)
    requires i < |bs| == |bs'|
  {
    bs'[i] == bs[i].(lruChain := bs'[i].lruChain, collChain := bs'[i].collChain)
  }

  lemma InsertKeeps(bs: seq<Bucket>, bs1: seq<Bucket>, bs': seq<Bucket>, order: seq<nat>, order': seq<nat>, x: nat)
    requires |bs| == CACHE_SIZE == |bs1| == |bs'| && x < CACHE_SIZE && |order'| == CACHE_SIZE
    requires LruOk(bs1, order'[0], x, order') && BucketsOk(bs)
    requires forall i :: 0 <= i < CACHE_SIZE && i != x ==> SameBody(bs, bs', i)
    requires forall i :: 0 <= i < CACHE_SIZE ==> bs'[i].lruChain == bs1[i].lruChain
    requires bs'[x].ip != 0 && bs'[x].valid && bs'[x].hint == 0 && !bs'[x].signalFrame
    requires forall i :: 0 <= i < CACHE_SIZE ==> !CacheMatch(bs[i], bs'[x].ip)
    ensures LruOk(bs', order'[0], x, order') && BucketsOk(bs')
  {
    forall k | 0 <= k < CACHE_SIZE - 1
      ensures bs'[order'[k]].lruChain == order'[k + 1]
    {
      assert bs1[order'[k]].lruChain == order'[k + 1];
    }
    forall i | 0 <= i < CACHE_SIZE && i != x
      ensures bs'[i].ip == bs[i].ip && bs'[i].ip != bs'[x].ip
      ensures bs'[i].hint < CACHE_SIZE && (bs'[i].valid <==> bs'[i].ip != 0) && (bs'[i].valid ==> !bs'[i].signalFrame)
    {
      assert SameBody(bs, bs', i) && !CacheMatch(bs[i], bs'[x].ip);
    }
  }

  lemma ChainedInsert(bs: seq<Bucket>, bs': seq<Bucket>, chains: seq<seq<nat>>, chains2: seq<seq<nat>>, chains3: seq<seq<nat>>, x: nat)
    requires |bs| == CACHE_SIZE == |bs'| && |chains| == HASH_SIZE == |chains2| && x < CACHE_SIZE
    requires var h := Hash(bs'[x].ip); chains3 == chains2[h := [x] + chains2[h]]
    requires forall i :: 0 <= i < CACHE_SIZE ==> Chained(bs, chains, i)
    requires forall i :: 0 <= i < CACHE_SIZE && i != x ==> SameBody(bs, bs', i)
    requires forall g, i :: 0 <= g < HASH_SIZE && i in chains[g] && i != x ==> i in chains2[g]
    ensures forall i :: 0 <= i < CACHE_SIZE ==> Chained(bs', chains3, i)
  {
    hide Hash;
    forall i | 0 <= i < CACHE_SIZE
      ensures Chained(bs', chains3, i)
    {
      if i != x {
        assert SameBody(bs, bs', i) && Chained(bs, chains, i);
      }
    }
  }

  /** Inserting drops the oldest entry of a full cache and appends the new one. */
  lemma InsertEntries(bs: seq<Bucket>, bs': seq<Bucket>, order: seq<nat>, filled: nat)
    requires |bs| == CACHE_SIZE == |bs'| && |order| == CACHE_SIZE
    requires forall k :: 0 <= k < CACHE_SIZE ==> order[k] < CACHE_SIZE
    requires Distinct(order) && FilledOk(bs, order, filled)
    requires bs'[order[0]].ip != 0
    requires forall i :: 0 <= i < CACHE_SIZE && i != order[0] ==> SameBody(bs, bs', i)
    ensures var order', filled' := order[1..] + [order[0]], if filled == CACHE_SIZE then filled else filled + 1;
            && FilledOk(bs', order', filled')
            && EntriesOf(bs', order', filled')
               == EntriesOf(bs, order, filled)[if filled == CACHE_SIZE then 1 else 0..] + [EntryOf(bs'[order[0]])]
  {
    var order', filled' := order[1..] + [order[0]], if filled == CACHE_SIZE then filled else filled + 1;
    forall k | 0 <= k < CACHE_SIZE
      ensures bs'[order'[k]].ip != 0 <==> CACHE_SIZE - filled' <= k
    {
      if k < CACHE_SIZE - 1 {
        assert order'[k] == order[k + 1];
        assert bs[order[k + 1]].ip != 0 <==> CACHE_SIZE - filled <= k + 1;
        assert SameBody(bs, bs', order[k + 1]);
      }
    }
    var es := EntriesOf(bs, order, filled)[if filled == CACHE_SIZE then 1 else 0..] + [EntryOf(bs'[order[0]])];
    var es' := EntriesOf(bs', order', filled');
    assert |es| == filled' == |es'| && order'[CACHE_SIZE - 1] == order[0];
    assert es'[filled' - 1] == es[filled' - 1];
    forall k | 0 <= k < filled'
      ensures es'[k] == es[k]
    {
      if k < filled' - 1 {
        var j := CACHE_SIZE - filled' + k;
        assert order'[j] == order[j + 1] != order[0];
        assert SameBody(bs, bs', order[j + 1]);
        assert es'[k] == EntryOf(bs'[order'[j]]);
        assert EntryOf(bs'[order[j + 1]]) == EntryOf(bs[order[j + 1]]);
        assert es[k] == EntriesOf(bs, order, filled)[k + filled + 1 - filled'];
        assert EntriesOf(bs, order, filled)[k + filled + 1 - filled'] == EntryOf(bs[order[j + 1]]);
      }
    }
  }

  class Cursor {
    var ip: Word
    var cfa: Word
    var hint: nat
    var prevRs: nat
    var retAddrColumn: Word
    var usePrevInstr: bool

    /** `common_init`. */
    constructor (ip: Word, cfa: Word)
      ensures this.ip == ip && this.cfa == cfa
      ensures hint == prevRs == 0 && retAddrColumn == RIP && usePrevInstr
    {
      this.ip, this.cfa := ip, cfa;
      hint, prevRs, retAddrColumn, usePrevInstr := 0, 0, RIP, true;
    }

    predicate InRange()
      reads this
    {
      hint < CACHE_SIZE && prevRs < CACHE_SIZE
    }
  }

  predicate CacheMatch(b: Bucket, ip: Word) {
    b.valid && ip == b.ip
  }

  class Cache {
    var lruHead: nat
    var lruTail: nat
    var generation: nat
    const hash: array<nat>
    const buckets: array<Bucket>
    ghost var order: seq<nat>
    ghost var chains: seq<seq<nat>>
    ghost var filled: nat

    /** Zeroed memory, as in a zero-initialised address space. */
    constructor ()
      ensures Shape() && fresh(hash) && fresh(buckets)
      ensures generation == 0
    {
      lruHead, lruTail, generation := 0, 0, 0;
      hash := new nat[HASH_SIZE](_ => 0);
      buckets := new Bucket[CACHE_SIZE](_ => Bucket(ALL_SAME, 0, 0, 0, 0, 0, false, false));
      order, chains, filled := [], [], 0;
    }

    ghost predicate Shape()
      reads this, hash, buckets
    {
      && hash.Length == HASH_SIZE && buckets.Length == CACHE_SIZE
      && forall i :: 0 <= i < CACHE_SIZE ==> buckets[i].hint < CACHE_SIZE
    }

    ghost predicate Valid()
      reads this, hash, buckets
    {
      Shape() && Structure(buckets[..], hash[..], lruHead, lruTail, order, chains, filled)
    }

    /** The cached entries, oldest first. */
    ghost function Entries(): (es: seq<Entry>)
      reads this, hash, buckets
      requires Valid()
      ensures |es| == filled
    {
      EntriesOf(buckets[..], order, filled)
    }

    /** `flush_rs_cache`; the hints keep their values. */
    method Flush()
      requires Shape()
      modifies this`lruHead, this`lruTail, this`order, this`chains, this`filled, hash, buckets
      ensures Valid() && Entries() == []
    {
      lruHead := CACHE_SIZE - 1;
      lruTail := 0;
      for i := 0 to CACHE_SIZE
        invariant Shape() && lruHead == CACHE_SIZE - 1 && lruTail == 0
        invariant forall j :: 0 <= j < i ==>
                    (j > 0 ==> buckets[j].lruChain == j - 1)
                    && buckets[j].collChain == NONE && buckets[j].ip == 0 && !buckets[j].valid
      {
        if i > 0 {
          buckets[i] := buckets[i].(lruChain := i - 1);
        }
        buckets[i] := buckets[i].(collChain := NONE);
        buckets[i] := buckets[i].(ip := 0);
        buckets[i] := buckets[i].(valid := false);
      }
      label AfterBuckets:
      for i := 0 to HASH_SIZE
        invariant Shape() && lruHead == CACHE_SIZE - 1 && lruTail == 0
        invariant buckets[..] == old@AfterBuckets(buckets[..])
        invariant forall j :: 0 <= j < i ==> hash[j] == NONE
      {
        hash[i] := NONE;
      }
      order := seq(CACHE_SIZE, k requires 0 <= k < CACHE_SIZE => CACHE_SIZE - 1 - k);
      chains := seq(HASH_SIZE, _ => []);
      filled := 0;
      EmptyStructure(buckets[..], hash[..]);
      hide Structure;
    }

    /** `rs_lookup`: the hint first, then the collision chain of the ip. */
    method Lookup(c: Cursor) returns (r: Option<nat>)
      requires Valid() && c.InRange()
      modifies c`hint, buckets
      ensures Valid() && c.InRange() && Entries() == old(Entries())
      ensures forall i :: 0 <= i < CACHE_SIZE ==> buckets[i] == old(buckets[i]).(hint := buckets[i].hint)
      ensures r.Some? <==> HasIp(Entries(), c.ip)
      ensures r.Some? ==> r.value < CACHE_SIZE && EntryOf(buckets[r.value]) in Entries()
                          && buckets[r.value].ip == c.ip && !buckets[r.value].signalFrame
      ensures r.None? ==> forall i :: 0 <= i < CACHE_SIZE ==> !CacheMatch(buckets[i], c.ip)
    {
      hide Hash;
      HasIpIff(buckets[..], order, filled, c.ip);
      if CacheMatch(buckets[c.hint], c.ip) {
        EntryMember(buckets[..], order, filled, c.hint);
        return Some(c.hint);
      }
      r := SearchChain(c.ip);
      if r.Some? {
        EntryMember(buckets[..], order, filled, r.value);
        // remember the way for next time
        SetHint(c.prevRs, r.value);
        c.hint := r.value;
      }
    }

    /** The walk along the collision chain in `rs_lookup`. */
    method SearchChain(ip: Word) returns (r: Option<nat>)
      requires Valid()
      ensures r.Some? ==> r.value < CACHE_SIZE && CacheMatch(buckets[r.value], ip)
      ensures r.None? ==> forall i :: 0 <= i < CACHE_SIZE ==> !CacheMatch(buckets[i], ip)
    {
      hide Hash;
      ghost var bs, h := buckets[..], Hash(ip);
      var index := hash[Hash(ip)];
      assert ChainOk(bs, hash[..][h], chains[h], h);
      if index >= CACHE_SIZE {
        ChainEnd(bs, chains[h], h, 0);
        Missed(bs, chains, ip);
        return None;
      }
      var rs := index;
      ghost var p := 0;
      while true
        invariant p < |chains[h]| && rs == chains[h][p]
        invariant forall k :: 0 <= k < p ==> chains[h][k] < CACHE_SIZE && bs[chains[h][k]].ip != ip
        decreases |chains[h]| - p
      {
        assert Linked(bs, chains[h], h, p);
        if CacheMatch(buckets[rs], ip) {
          return Some(rs);
        }
        if buckets[rs].collChain >= HASH_SIZE {
          ChainEnd(bs, chains[h], h, p + 1);
          Missed(bs, chains, ip);
          return None;
        }
        rs := buckets[rs].collChain;
        p := p + 1;
      }
    }

    /** `rs_new`: recycle the oldest bucket for the cursor's ip. The row is copied
        in by the caller. */
    method RsNew(c: Cursor) returns (rs: nat)
      requires Valid() && c.ip != 0
      requires forall i :: 0 <= i < CACHE_SIZE ==> !CacheMatch(buckets[i], c.ip)
      modifies this`lruHead, this`lruTail, this`order, this`chains, this`filled, hash, buckets
      ensures Valid() && rs < CACHE_SIZE && rs == order[CACHE_SIZE - 1]
      ensures buckets[rs].ip == c.ip && buckets[rs].valid && !buckets[rs].signalFrame
      ensures buckets[rs].retCol == c.retAddrColumn && buckets[rs].hint == 0
      ensures Entries() == Recent(old(Entries()), CACHE_SIZE - 1) + [EntryOf(buckets[rs])]
    {
      hide Structure, Hash, LruOk, ChainsOk, OnNoChain, BucketsOk, FilledOk, EntriesOf, Recent, SameBody, CacheMatch;
      ghost var bs0 := buckets[..];
      rs := Detach();
      ghost var bs2, chains2 := buckets[..], chains;
      Enter(rs, c);
      filled := if filled == CACHE_SIZE then filled else filled + 1;
      Inserted(bs0, bs2, buckets[..], old(hash[..]), hash[..], old(lruHead), old(lruTail), lruHead, old(order), order,
               old(chains), chains2, chains, old(filled), rs, c.ip);
    }

    /** The first half of `rs_new`: the oldest bucket becomes the last of the LRU list and
        leaves its collision chain. */
    method Detach() returns (rs: nat)
      requires Valid()
      modifies this`lruHead, this`lruTail, this`order, this`chains, hash, buckets
      ensures Shape() && rs < CACHE_SIZE && rs == old(order)[0]
      ensures order == old(order)[1..] + [rs] && |order| == CACHE_SIZE && order[CACHE_SIZE - 1] == rs
      ensures lruTail == rs && LruOk(buckets[..], lruHead, rs, order)
      ensures ChainsOk(buckets[..], hash[..], chains) && OnNoChain(chains, rs)
      ensures forall i :: 0 <= i < CACHE_SIZE ==> SameBody(old(buckets[..]), buckets[..], i)
      ensures ChainsKept(old(chains), chains, rs)
    {
      hide Hash;
      var head := lruHead;
      rs := head;
      lruHead := buckets[rs].lruChain;

      // the head becomes the tail
      buckets[lruTail] := buckets[lruTail].(lruChain := head);
      lruTail := head;
      ghost var bs0, bs1 := old(buckets[..]), buckets[..];
      order := order[1..] + [head];
      LruRotate(bs0, head, old(lruTail), old(order));
      ChainsFrame(bs0, bs1, hash[..], chains);

      if buckets[rs].ip != 0 {
        assert Chained(bs0, chains, rs);
        Unlink(rs);
      } else {
        FreeOnNoChain(bs1, hash[..], chains, rs);
      }
      ghost var bs2 := buckets[..];
      assert forall i :: 0 <= i < CACHE_SIZE ==> SameButChain(bs1, bs2, i);
      LruFrame(bs1, bs2, lruHead, rs, order);
      forall i | 0 <= i < CACHE_SIZE
        ensures SameBody(bs0, bs2, i)
      {
        assert SameButChain(bs1, bs2, i);
      }
    }

    /** The copy of a new row into the newest bucket. */
    method CopyRow(rs: nat, row: Row)
      requires Valid() && filled > 0 && rs == order[CACHE_SIZE - 1]
      modifies buckets
      ensures Valid() && buckets[rs] == old(buckets[rs]).(row := row)
      ensures Entries() == old(Entries())[filled - 1 := old(EntryOf(buckets[rs])).(row := row)]
    {
      hide Hash;
      buckets[rs] := buckets[rs].(row := row);
      StructureFrame(old(buckets[..]), buckets[..], hash[..], lruHead, lruTail, order, chains, filled);
      RowEntries(old(buckets[..]), buckets[..], order, filled, row);
    }

    /** A new bucket for the cursor's ip, with its row. */
    method Insert(c: Cursor, row: Row) returns (rs: nat)
      requires Valid() && c.ip != 0
      requires forall i :: 0 <= i < CACHE_SIZE ==> !CacheMatch(buckets[i], c.ip)
      modifies this`lruHead, this`lruTail, this`order, this`chains, this`filled, hash, buckets
      ensures Valid() && rs < CACHE_SIZE && buckets[rs].row == row && buckets[rs].hint == 0
      ensures Entries() == Recent(old(Entries()), CACHE_SIZE - 1) + [Entry(c.ip, row, c.retAddrColumn)]
    {
      hide Structure, EntriesOf, Recent;
      rs := RsNew(c);
      ghost var es := Entries();
      CopyRow(rs, row);
      LastReplaced(Recent(old(Entries()), CACHE_SIZE - 1), es, Entry(c.ip, row, c.retAddrColumn));
    }

    /** A write of one hint. */
    method SetHint(i: nat, hint: nat)
      requires Valid() && i < CACHE_SIZE && hint < CACHE_SIZE
      modifies buckets
      ensures Valid() && Entries() == old(Entries())
      ensures forall j :: 0 <= j < CACHE_SIZE ==> buckets[j] == old(buckets[j]).(hint := buckets[j].hint)
      ensures buckets[i].hint == hint
    {
      hide Hash;
      buckets[i] := buckets[i].(hint := hint);
      StructureFrame(old(buckets[..]), buckets[..], hash[..], lruHead, lruTail, order, chains, filled);
      HintEntries(old(buckets[..]), buckets[..], order, filled);
    }

    /** The entering of a bucket in the hash table in `rs_new`. */
    method Enter(rs: nat, c: Cursor)
      requires Shape() && ChainsOk(buckets[..], hash[..], chains)
      requires rs < CACHE_SIZE && OnNoChain(chains, rs) && c.ip != 0
      modifies this`chains, hash, buckets
      ensures Shape() && ChainsOk(buckets[..], hash[..], chains)
      ensures var h := Hash(c.ip); chains == old(chains)[h := [rs] + old(chains)[h]]
      ensures forall i :: 0 <= i < CACHE_SIZE && i != rs ==> buckets[i] == old(buckets[i])
      ensures var b := old(buckets[rs]);
              buckets[rs] == b.(collChain := buckets[rs].collChain, hint := 0, ip := c.ip, valid := true,
                                retCol := c.retAddrColumn, signalFrame := false)
    {
      hide Hash;
      var index := Hash(c.ip);
      buckets[rs] := buckets[rs].(collChain := hash[index]);
      hash[index] := rs;

      buckets[rs] := buckets[rs].(hint := 0);
      buckets[rs] := buckets[rs].(ip := c.ip);
      buckets[rs] := buckets[rs].(valid := true);
      buckets[rs] := buckets[rs].(retCol := c.retAddrColumn);
      buckets[rs] := buckets[rs].(signalFrame := false);
      chains := chains[index := [rs] + chains[index]];
      PushChains(old(buckets[..]), buckets[..], old(hash[..]), old(chains), rs);
    }

    /** The removal of an old bucket from its collision chain in `rs_new`. */
    method Unlink(rs: nat)
      requires Shape() && ChainsOk(buckets[..], hash[..], chains)
      requires rs < CACHE_SIZE && buckets[rs].ip != 0 && rs in chains[Hash(buckets[rs].ip)]
      modifies this`chains, hash, buckets
      ensures Shape() && ChainsOk(buckets[..], hash[..], chains) && OnNoChain(chains, rs)
      ensures forall i :: 0 <= i < CACHE_SIZE ==> SameButChain(old(buckets[..]), buckets[..], i)
      ensures forall g, i :: 0 <= g < HASH_SIZE && i in old(chains)[g] && i != rs ==> i in chains[g]
    {
      hide Hash;
      var index := Hash(buckets[rs].ip);
      ghost var chain := chains[index];
      assert ChainOk(buckets[..], hash[..][index], chain, index);
      ghost var p := 0;
      var tmp := hash[index];
      var prev: Option<nat> := None;
      while true
        invariant p < |chain| && tmp == chain[p] && rs !in chain[..p]
        invariant prev == if p == 0 then None else Some(chain[p - 1])
        invariant unchanged(this) && unchanged(hash) && unchanged(buckets)
        decreases |chain| - p
      {
        assert Linked(buckets[..], chain, index, p);
        assert p > 0 ==> Linked(buckets[..], chain, index, p - 1);
        if tmp == rs {
          if prev.Some? {
            buckets[prev.value] := buckets[prev.value].(collChain := buckets[tmp].collChain);
          } else {
            hash[index] := buckets[tmp].collChain;
          }
          break;
        } else {
          prev := Some(tmp);
        }
        assert p + 1 < |chain| && Linked(buckets[..], chain, index, p + 1);
        if buckets[tmp].collChain >= CACHE_SIZE {
          // end of the chain
          break;
        }
        tmp := buckets[tmp].collChain;
        p := p + 1;
      }
      UnlinkChains(old(buckets[..]), buckets[..], old(hash[..]), hash[..], chains, index, p);
      chains := chains[index := Without(chain, p)];
      forall i | i in chain && i != rs
        ensures i in chains[index]
      {
        MemberWithout(chain, p, i);
      }
    }
  }

  ghost predicate HasIp(es: seq<Entry>, ip: Word) {
    exists k :: 0 <= k < |es| && es[k].ip == ip
  }

  /** A bucket in use is among the entries. */
  lemma EntryMember(bs: seq<Bucket>, order: seq<nat>, filled: nat, i: nat)
    requires |bs| == CACHE_SIZE == |order| && i < CACHE_SIZE && bs[i].ip != 0
    requires forall k :: 0 <= k < CACHE_SIZE ==> order[k] < CACHE_SIZE
    requires Distinct(order) && FilledOk(bs, order, filled)
    ensures EntryOf(bs[i]) in EntriesOf(bs, order, filled)
  {
    LruVisitsAll(order, i);
    var k :| 0 <= k < CACHE_SIZE && order[k] == i;
    assert bs[order[k]].ip != 0;
    assert EntriesOf(bs, order, filled)[k - (CACHE_SIZE - filled)] == EntryOf(bs[i]);
  }

  /** An ip is cached exactly when some valid bucket holds it. */
  lemma HasIpIff(bs: seq<Bucket>, order: seq<nat>, filled: nat, ip: Word)
    requires |bs| == CACHE_SIZE == |order| && BucketsOk(bs)
    requires forall k :: 0 <= k < CACHE_SIZE ==> order[k] < CACHE_SIZE
    requires Distinct(order) && FilledOk(bs, order, filled)
    ensures HasIp(EntriesOf(bs, order, filled), ip) <==> exists i :: 0 <= i < CACHE_SIZE && CacheMatch(bs[i], ip)
  {
    var es := EntriesOf(bs, order, filled);
    if HasIp(es, ip) {
      var k :| 0 <= k < |es| && es[k].ip == ip;
      var i := order[CACHE_SIZE - filled + k];
      assert bs[order[CACHE_SIZE - filled + k]].ip != 0;
      assert es[k] == EntryOf(bs[i]) && CacheMatch(bs[i], ip);
    }
    if exists i :: 0 <= i < CACHE_SIZE && CacheMatch(bs[i], ip) {
      var i :| 0 <= i < CACHE_SIZE && CacheMatch(bs[i], ip);
      EntryMember(bs, order, filled, i);
      var k :| 0 <= k < |es| && es[k] == EntryOf(bs[i]);
      assert es[k].ip == ip;
    }
  }

  /** The last `n` entries. */
  function Recent(es: seq<Entry>, n: nat): seq<Entry> {
    if |es| <= n then es else es[|es| - n..]
  }

  ghost predicate SameButChain(bs: seq<Bucket>, bs': seq<Bucket>, i: nat)
    requires i < |bs| == |bs'|
  {
    bs'[i] == bs[i].(collChain := bs'[i].collChain)
  }

  lemma FreeOnNoChain(bs: seq<Bucket>, hash: seq<nat>, chains: seq<seq<nat>>, x: nat)
    requires ChainsOk(bs, hash, chains) && x < CACHE_SIZE && bs[x].ip == 0
    ensures OnNoChain(chains, x)
  {
    forall g | 0 <= g < HASH_SIZE
      ensures x !in chains[g]
    {
      if x in chains[g] {
        OneChain(bs, hash, chains, g, x);
        assert false;
      }
    }
  }

  /** Free buckets linked downwards, without chains, are an empty cache. */
  lemma EmptyStructure(bs: seq<Bucket>, hash: seq<nat>)
    requires |bs| == CACHE_SIZE && |hash| == HASH_SIZE
    requires forall i :: 0 <= i < CACHE_SIZE ==> bs[i].hint < CACHE_SIZE && bs[i].ip == 0 && !bs[i].valid
    requires forall i :: 0 < i < CACHE_SIZE ==> bs[i].lruChain == i - 1
    requires forall h :: 0 <= h < HASH_SIZE ==> hash[h] == NONE
    ensures Structure(bs, hash, CACHE_SIZE - 1, 0,
              seq(CACHE_SIZE, k requires 0 <= k < CACHE_SIZE => CACHE_SIZE - 1 - k), seq(HASH_SIZE, _ => []), 0)
  {
    var order := seq(CACHE_SIZE, k requires 0 <= k < CACHE_SIZE => CACHE_SIZE - 1 - k);
    var chains: seq<seq<nat>> := seq(HASH_SIZE, _ => []);
    assert order[0] == CACHE_SIZE - 1 && order[CACHE_SIZE - 1] == 0;
    forall h | 0 <= h < HASH_SIZE
      ensures ChainOk(bs, hash[h], chains[h], h)
    {
      assert chains[h] == [];
    }
  }

  lemma LastReplaced(es: seq<Entry>, es': seq<Entry>, e: Entry)
    requires |es'| == |es| + 1 && es' == es + [es'[|es|]]
    ensures es'[|es| := e] == es + [e]
  {
  }

  /** No bucket but `x` left a chain. */
  ghost predicate ChainsKept(chains: seq<seq<nat>>, chains': seq<seq<nat>>, x: nat) {
    && |chains| == HASH_SIZE == |chains'|
    && forall g, i :: 0 <= g < HASH_SIZE && i in chains[g] && i != x ==> i in chains'[g]
  }

  lemma LruFrame(bs: seq<Bucket>, bs': seq<Bucket>, head: nat, tail: nat, order: seq<nat>)
    requires LruOk(bs, head, tail, order) && |bs'| == CACHE_SIZE
    requires forall i :: 0 <= i < CACHE_SIZE ==> SameButChain(bs, bs', i)
    ensures LruOk(bs', head, tail, order)
  {
    forall k | 0 <= k < CACHE_SIZE - 1
      ensures bs'[order[k]].lruChain == order[k + 1]
    {
      assert SameButChain(bs, bs', order[k]) && bs[order[k]].lruChain == order[k + 1];
    }
  }

  /** Both halves of `rs_new` together keep the structure, drop the oldest entry of a full
      cache and append the new one. */
  lemma Inserted(bs0: seq<Bucket>, bs2: seq<Bucket>, bs3: seq<Bucket>, hash0: seq<nat>, hash3: seq<nat>,
                 head0: nat, tail0: nat, head: nat, order0: seq<nat>, order: seq<nat>,
                 chains0: seq<seq<nat>>, chains2: seq<seq<nat>>, chains3: seq<seq<nat>>, filled: nat, x: nat, ip: Word)
    requires Structure(bs0, hash0, head0, tail0, order0, chains0, filled) && |bs2| == CACHE_SIZE == |bs3|
    requires x == order0[0] && x < CACHE_SIZE && order == order0[1..] + [x] && LruOk(bs2, head, x, order)
    requires forall i :: 0 <= i < CACHE_SIZE ==> SameBody(bs0, bs2, i)
    requires forall i :: 0 <= i < CACHE_SIZE && i != x ==> bs3[i] == bs2[i]
    requires bs3[x].lruChain == bs2[x].lruChain
    requires bs3[x].ip == ip != 0 && bs3[x].valid && bs3[x].hint == 0 && !bs3[x].signalFrame
    requires forall i :: 0 <= i < CACHE_SIZE ==> !CacheMatch(bs0[i], ip)
    requires ChainsOk(bs3, hash3, chains3) && ChainsKept(chains0, chains2, x)
    requires chains3 == chains2[Hash(ip) := [x] + chains2[Hash(ip)]]
    ensures var filled' := if filled == CACHE_SIZE then filled else filled + 1;
            && Structure(bs3, hash3, head, x, order, chains3, filled')
            && EntriesOf(bs3, order, filled')
               == Recent(EntriesOf(bs0, order0, filled), CACHE_SIZE - 1) + [EntryOf(bs3[x])]
  {
    hide Hash, LruOk, ChainsOk, BucketsOk, FilledOk, CacheMatch, EntriesOf;
    LruParts(bs2, head, x, order);
    LruParts(bs0, head0, tail0, order0);
    forall i | 0 <= i < CACHE_SIZE && i != x
      ensures SameBody(bs0, bs3, i)
    {
      assert SameBody(bs0, bs2, i);
    }
    InsertKeeps(bs0, bs2, bs3, order0, order, x);
    InsertEntries(bs0, bs3, order0, filled);
    ChainedInsert(bs0, bs3, chains0, chains2, chains3, x);
  }

  lemma LruParts(bs: seq<Bucket>, head: nat, tail: nat, order: seq<nat>)
    requires LruOk(bs, head, tail, order)
    ensures |bs| == CACHE_SIZE == |order| && order[0] == head && Distinct(order)
    ensures forall k :: 0 <= k < CACHE_SIZE ==> order[k] < CACHE_SIZE
  {
  }

  ghost predicate SameButHint(bs: seq<Bucket>, bs': seq<Bucket>, i: nat)
    requires i < |bs| == |bs'|
  {
    bs'[i] == bs[i].(hint := bs'[i].hint)
  }

  /** Equal in every field the structure depends on. */
  ghost predicate SameThreads(bs: seq<Bucket>, bs': seq<Bucket>, i: nat)
    requires i < |bs| == |bs'|
  {
    && bs'[i].ip == bs[i].ip && bs'[i].lruChain == bs[i].lruChain && bs'[i].collChain == bs[i].collChain
    && bs'[i].valid == bs[i].valid && bs'[i].signalFrame == bs[i].signalFrame
    && bs'[i].hint < CACHE_SIZE
  }

  /** Writing hints and rows disturbs no thread. */
  lemma StructureFrame(bs: seq<Bucket>, bs': seq<Bucket>, hash: seq<nat>, head: nat, tail: nat,
                       order: seq<nat>, chains: seq<seq<nat>>, filled: nat)
    requires Structure(bs, hash, head, tail, order, chains, filled) && |bs'| == CACHE_SIZE
    requires forall i :: 0 <= i < CACHE_SIZE ==> SameThreads(bs, bs', i)
    ensures Structure(bs', hash, head, tail, order, chains, filled)
  {
    hide Hash;
    assert ChainsOk(bs', hash, chains) by {
      forall i | 0 <= i < CACHE_SIZE
        ensures SameLink(bs, bs', i)
      {
        assert SameThreads(bs, bs', i);
      }
      ChainsFrame(bs, bs', hash, chains);
    }
    assert forall i :: 0 <= i < CACHE_SIZE ==> Chained(bs', chains, i) by {
      forall i | 0 <= i < CACHE_SIZE
        ensures Chained(bs', chains, i)
      {
        assert SameThreads(bs, bs', i) && Chained(bs, chains, i);
      }
    }
    BucketsFrame(bs, bs');
    OrderFrame(bs, bs', head, tail, order, filled);
  }

  lemma BucketsFrame(bs: seq<Bucket>, bs': seq<Bucket>)
    requires |bs| == |bs'| && BucketsOk(bs)
    requires forall i :: 0 <= i < |bs| ==> SameThreads(bs, bs', i)
    ensures BucketsOk(bs')
  {
    forall i | 0 <= i < |bs|
      ensures bs'[i].ip == bs[i].ip && bs'[i].valid == bs[i].valid && bs'[i].signalFrame == bs[i].signalFrame
      ensures bs'[i].hint < CACHE_SIZE
    {
      assert SameThreads(bs, bs', i);
    }
  }

  lemma OrderFrame(bs: seq<Bucket>, bs': seq<Bucket>, head: nat, tail: nat, order: seq<nat>, filled: nat)
    requires LruOk(bs, head, tail, order) && FilledOk(bs, order, filled) && |bs'| == CACHE_SIZE
    requires forall i :: 0 <= i < CACHE_SIZE ==> SameThreads(bs, bs', i)
    ensures LruOk(bs', head, tail, order) && FilledOk(bs', order, filled)
  {
    forall k | 0 <= k < CACHE_SIZE
      ensures bs'[order[k]].ip != 0 <==> CACHE_SIZE - filled <= k
      ensures k < CACHE_SIZE - 1 ==> bs'[order[k]].lruChain == order[k + 1]
    {
      assert SameThreads(bs, bs', order[k]);
      assert bs[order[k]].ip != 0 <==> CACHE_SIZE - filled <= k;
    }
  }

  /** Writing hints leaves the entries alone. */
  lemma HintEntries(bs: seq<Bucket>, bs': seq<Bucket>, order: seq<nat>, filled: nat)
    requires |bs| == CACHE_SIZE == |bs'| && |order| == CACHE_SIZE && filled <= CACHE_SIZE
    requires forall k :: 0 <= k < CACHE_SIZE ==> order[k] < CACHE_SIZE
    requires forall i :: 0 <= i < CACHE_SIZE ==> SameButHint(bs, bs', i)
    ensures EntriesOf(bs', order, filled) == EntriesOf(bs, order, filled)
  {
    var es, es' := EntriesOf(bs, order, filled), EntriesOf(bs', order, filled);
    forall k | 0 <= k < filled
      ensures es'[k] == es[k]
    {
      var i := order[CACHE_SIZE - filled + k];
      assert SameButHint(bs, bs', i);
      assert EntryOf(bs'[i]) == EntryOf(bs[i]);
    }
  }

  /** Writing the row of the newest bucket changes the newest entry. */
  lemma RowEntries(bs: seq<Bucket>, bs': seq<Bucket>, order: seq<nat>, filled: nat, row: Row)
    requires |bs| == CACHE_SIZE && |order| == CACHE_SIZE && 0 < filled <= CACHE_SIZE && Distinct(order)
    requires forall k :: 0 <= k < CACHE_SIZE ==> order[k] < CACHE_SIZE
    requires var x := order[CACHE_SIZE - 1]; bs' == bs[x := bs[x].(row := row)]
    ensures EntriesOf(bs', order, filled)
            == EntriesOf(bs, order, filled)[filled - 1 := EntryOf(bs[order[CACHE_SIZE - 1]]).(row := row)]
  {
    var es, es' := EntriesOf(bs, order, filled), EntriesOf(bs', order, filled);
    forall k | 0 <= k < filled - 1
      ensures es'[k] == es[k]
    {
      assert order[CACHE_SIZE - filled + k] != order[CACHE_SIZE - 1];
    }
    assert es'[filled - 1] == EntryOf(bs'[order[CACHE_SIZE - 1]]);
  }

  lemma ChainEnd(bs: seq<Bucket>, chain: seq<nat>, h: nat, k: nat)
    requires |bs| == CACHE_SIZE && ChainOk(bs, Link(chain, 0), chain, h)
    requires Link(chain, k) >= CACHE_SIZE
    ensures |chain| <= k
  {
    assert k < |chain| ==> Linked(bs, chain, h, k);
  }

  /** If no bucket on the chain of an ip holds it, no bucket does. */
  lemma Missed(bs: seq<Bucket>, chains: seq<seq<nat>>, ip: Word)
    requires |chains| == HASH_SIZE && BucketsOk(bs)
    requires forall i :: 0 <= i < |bs| ==> Chained(bs, chains, i)
    requires forall k {:trigger chains[Hash(ip)][k]} :: 0 <= k < |chains[Hash(ip)]| && chains[Hash(ip)][k] < |bs| ==> bs[chains[Hash(ip)][k]].ip != ip
    ensures forall i :: 0 <= i < |bs| ==> !CacheMatch(bs[i], ip)
  {
    forall i | 0 <= i < |bs|
      ensures !CacheMatch(bs[i], ip)
    {
      hide Hash;
      assert Chained(bs, chains, i);
    }
  }
}
