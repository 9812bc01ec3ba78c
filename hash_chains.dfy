/**
 * The static hash file of static_hashing.py seen as a sequence of buckets:
 * bucket i is the block at byte offset i * SIZE_OF_BUCKET, the first
 * N_MAIN_BUCKETS are the main buckets, and overflow buckets, appended at the
 * end of the file, are reached from a main bucket through `next` offsets.
 * This module gives what such a file means (chains, the records on a chain,
 * search, scan), what `add` and `delete` do to it as functions, and the
 * lemmas that state what those operations promise.
 */
module HashChains {
  import opened Wrappers
  import opened HashBucket

  const N_MAIN_BUCKETS: nat := 10

  /**
   * `StaticHashing.hash`: Python's `key % N_MAIN_BUCKETS`, which with a positive
   * modulus lies in [0, N_MAIN_BUCKETS) for negative keys too and leaves a
   * multiple of N_MAIN_BUCKETS.
   */
  function Hash(key: int): (h: nat)
    ensures h < N_MAIN_BUCKETS
    ensures (key - h) % N_MAIN_BUCKETS == 0
  {
    key % N_MAIN_BUCKETS
  }

  /** Byte offset of bucket i. */
  function Offset(i: nat): nat
  {
    i * SIZE_OF_BUCKET
  }

  /** The main bucket of a key sits at offset hash(key) * SIZE_OF_BUCKET, inside the main area. */
  lemma MainBucketOffset(key: int)
    ensures Offset(Hash(key)) % SIZE_OF_BUCKET == 0
    ensures Offset(Hash(key)) / SIZE_OF_BUCKET == Hash(key)
    ensures Offset(Hash(key)) + SIZE_OF_BUCKET <= N_MAIN_BUCKETS * SIZE_OF_BUCKET
  {
  }

  // ---------------------------------------------------------------------------
  // Chains

  /** The `next` of bucket k is -1 or the offset of a bucket further on in the file. */
  predicate LinkOk(f: seq<Bucket>, k: nat)
    requires k < |f|
  {
    f[k].next == -1
    || (f[k].next % SIZE_OF_BUCKET == 0 && k < f[k].next / SIZE_OF_BUCKET < |f|)
  }

  predicate Linked(f: seq<Bucket>)
  {
    forall k :: 0 <= k < |f| ==> LinkOk(f, k)
  }

  predicate InFile(f: seq<Bucket>, ks: seq<nat>)
  {
    forall j :: 0 <= j < |ks| ==> ks[j] < |f|
  }

  /** The bucket indices visited by following `next` from bucket k. */
  function ChainFrom(f: seq<Bucket>, k: nat): (ks: seq<nat>)
    requires Linked(f) && k < |f|
    ensures |ks| > 0 && ks[0] == k
    ensures InFile(f, ks)
    decreases |f| - k
  {
    assert LinkOk(f, k);
    if f[k].next == -1 then [k] else [k] + ChainFrom(f, f[k].next / SIZE_OF_BUCKET)
  }

  /**
   * A chain is what the source's loops walk: each bucket links to the following
   * one, the last has `next == -1`, and the indices increase, so a chain never
   * visits a bucket twice.
   */
  lemma {:induction false} ChainShape(f: seq<Bucket>, k: nat)
    requires Linked(f) && k < |f|
    ensures var ks := ChainFrom(f, k);
            (forall j :: 0 <= j < |ks| - 1 ==> f[ks[j]].next == Offset(ks[j + 1]))
            && f[ks[|ks| - 1]].next == -1
            && (forall j :: 0 <= j < |ks| ==> k <= ks[j])
            && (forall i, j :: 0 <= i < j < |ks| ==> ks[i] < ks[j])
    decreases |f| - k
  {
    assert LinkOk(f, k);
    if f[k].next != -1 {
      ChainShape(f, f[k].next / SIZE_OF_BUCKET);
    }
  }

  /**
   * Walking a chain one bucket at a time: the p-th bucket's `next` is -1 exactly
   * at the last bucket, and otherwise the offset of the (p+1)-th.
   */
  lemma ChainNext(f: seq<Bucket>, k: nat, p: nat)
    requires Linked(f) && k < |f| && p < |ChainFrom(f, k)|
    ensures var ks := ChainFrom(f, k);
            (f[ks[p]].next == -1 <==> p == |ks| - 1)
            && (p < |ks| - 1 ==> f[ks[p]].next == Offset(ks[p + 1]) && f[ks[p]].next / SIZE_OF_BUCKET == ks[p + 1])
  {
    ChainShape(f, k);
    var ks := ChainFrom(f, k);
    if p < |ks| - 1 {
      assert f[ks[p]].next == ks[p + 1] * SIZE_OF_BUCKET;
      assert f[ks[p]].next / SIZE_OF_BUCKET == ks[p + 1];
    }
  }

  /** The records of the buckets ks, bucket by bucket, each in slot order. */
  function Gather(f: seq<Bucket>, ks: seq<nat>): seq<Record>
    requires InFile(f, ks)
  {
    if ks == [] then [] else f[ks[0]].records + Gather(f, ks[1..])
  }

  /** The records of main bucket i and of its overflow chain, in the order search visits them. */
  function ChainRecords(f: seq<Bucket>, i: nat): seq<Record>
    requires Linked(f) && i < |f|
  {
    Gather(f, ChainFrom(f, i))
  }

  /** The records of each main bucket's chain, main bucket 0 first. */
  function Chains(f: seq<Bucket>): (cs: seq<seq<Record>>)
    requires Linked(f) && N_MAIN_BUCKETS <= |f|
    ensures |cs| == N_MAIN_BUCKETS
    ensures forall i :: 0 <= i < N_MAIN_BUCKETS ==> cs[i] == ChainRecords(f, i)
  {
    seq(N_MAIN_BUCKETS, i requires 0 <= i < N_MAIN_BUCKETS => ChainRecords(f, i))
  }

  /** The concatenation of cs, first one first. */
  function Flatten<T>(cs: seq<seq<T>>): seq<T>
  {
    if cs == [] then [] else Flatten(cs[..|cs| - 1]) + cs[|cs| - 1]
  }

  /** `scanAll`: main buckets 0..N_MAIN_BUCKETS-1 in order, each followed by its overflow chain. */
  function Scan(f: seq<Bucket>): seq<Record>
    requires Linked(f) && N_MAIN_BUCKETS <= |f|
  {
    Flatten(Chains(f))
  }

  // ---------------------------------------------------------------------------
  // Search

  /** Position of the first record with the key, or |rs| when there is none. */
  function FindIndex(rs: seq<Record>, key: int): (i: nat)
    ensures i <= |rs|
    ensures i < |rs| ==> rs[i].idVenta == key
    ensures forall j :: 0 <= j < i ==> rs[j].idVenta != key
  {
    if rs == [] then 0
    else if rs[0].idVenta == key then 0
    else 1 + FindIndex(rs[1..], key)
  }

  /** The first record with the key, as `search` walks the records in order. */
  function FindFirst(rs: seq<Record>, key: int): (r: Option<Record>)
    ensures r.Some? ==> r.value in rs && r.value.idVenta == key
  {
    if rs == [] then None
    else if rs[0].idVenta == key then Some(rs[0])
    else FindFirst(rs[1..], key)
  }

  /** `search(key)`: the first record with the key on the key's chain, or None. */
  function Lookup(f: seq<Bucket>, key: int): Option<Record>
    requires Linked(f) && N_MAIN_BUCKETS <= |f|
  {
    FindFirst(ChainRecords(f, Hash(key)), key)
  }

  // ---------------------------------------------------------------------------
  // Add and delete

  /** Position in ks of the first bucket with a free slot, or |ks| when all are full. */
  function FirstWithRoom(f: seq<Bucket>, ks: seq<nat>): (p: nat)
    requires InFile(f, ks)
    ensures p <= |ks|
    ensures p < |ks| ==> |f[ks[p]].records| < BLOCK_FACTOR
    ensures forall q :: 0 <= q < p ==> |f[ks[q]].records| >= BLOCK_FACTOR
  {
    if ks == [] then 0
    else if |f[ks[0]].records| < BLOCK_FACTOR then 0
    else 1 + FirstWithRoom(f, ks[1..])
  }

  /**
   * `add(r)`: r goes at the end of the first bucket of its chain with a free
   * slot; when every bucket of the chain is full, a new bucket [r] is appended
   * at the end of the file and linked from the old tail of the chain.
   */
  function Added(f: seq<Bucket>, r: Record): seq<Bucket>
    requires Linked(f) && N_MAIN_BUCKETS <= |f|
  {
    var ks := ChainFrom(f, Hash(r.idVenta));
    var p := FirstWithRoom(f, ks);
    if p < |ks| then
      f[ks[p] := Bucket(f[ks[p]].records + [r], f[ks[p]].next)]
    else
      var t := ks[|ks| - 1];
      f[t := Bucket(f[t].records, Offset(|f|))] + [Bucket([r], -1)]
  }

  /** Position in ks of the first bucket holding a record with the key, or |ks|. */
  function FirstHolding(f: seq<Bucket>, ks: seq<nat>, key: int): (p: nat)
    requires InFile(f, ks)
    ensures p <= |ks|
    ensures p < |ks| ==> FindIndex(f[ks[p]].records, key) < |f[ks[p]].records|
    ensures forall q :: 0 <= q < p ==> FindIndex(f[ks[q]].records, key) == |f[ks[q]].records|
  {
    if ks == [] then 0
    else if FindIndex(f[ks[0]].records, key) < |f[ks[0]].records| then 0
    else 1 + FirstHolding(f, ks[1..], key)
  }

  function RemoveAt<T>(rs: seq<T>, i: nat): seq<T>
    requires i < |rs|
  {
    rs[..i] + rs[i + 1..]
  }

  /**
   * `delete(key)`: whether a record with the key was found on its chain, and the
   * file with the first such record removed from its bucket. No `next` changes.
   */
  function Deleted(f: seq<Bucket>, key: int): (bool, seq<Bucket>)
    requires Linked(f) && N_MAIN_BUCKETS <= |f|
  {
    var ks := ChainFrom(f, Hash(key));
    var p := FirstHolding(f, ks, key);
    if p == |ks| then
      (false, f)
    else
      var b := f[ks[p]];
      (true, f[ks[p] := Bucket(RemoveAt(b.records, FindIndex(b.records, key)), b.next)])
  }

  // ---------------------------------------------------------------------------
  // The invariant of a hash file

  /**
   * owner[k] is the main bucket whose chain bucket k belongs to. A file is well
   * formed when its links point forward, no bucket holds more than BLOCK_FACTOR
   * records, every overflow bucket is linked from an earlier bucket, links join
   * buckets of the same owner only, and every record hashes to its bucket's
   * owner. Together these put every bucket on its owner's chain (OnOwnersChain).
   */
  ghost predicate Inv(f: seq<Bucket>, owner: seq<nat>)
  {
    N_MAIN_BUCKETS <= |f| && |owner| == |f| && Linked(f)
    && (forall k :: 0 <= k < |f| ==> |f[k].records| <= BLOCK_FACTOR)
    && (forall k :: 0 <= k < N_MAIN_BUCKETS ==> owner[k] == k)
    && (forall k :: 0 <= k < |f| ==> owner[k] < N_MAIN_BUCKETS)
    && (forall k :: 0 <= k < |f| && f[k].next != -1 ==>
          LinkOk(f, k) && owner[f[k].next / SIZE_OF_BUCKET] == owner[k])
    && (forall k, x :: 0 <= k < |f| && x in f[k].records ==> Hash(x.idVenta) == owner[k])
    && (forall k :: N_MAIN_BUCKETS <= k < |f| ==> HasParent(f, k))
  }

  /** Some bucket before bucket k links to it: how an overflow bucket joins a chain. */
  predicate HasParent(f: seq<Bucket>, k: nat)
    requires k <= |f|
  {
    exists j :: 0 <= j < k && f[j].next == Offset(k)
  }

  /** The file `StaticHashing.__init__` writes into a file too short to hold the main buckets. */
  function EmptyMainBuckets(): (f: seq<Bucket>)
    ensures |f| == N_MAIN_BUCKETS
  {
    seq(N_MAIN_BUCKETS, _ => Bucket([], -1))
  }

  function MainOwners(): (owner: seq<nat>)
  {
    seq(N_MAIN_BUCKETS, i => i)
  }

  lemma EmptyMainBucketsInv()
    ensures Inv(EmptyMainBuckets(), MainOwners())
    ensures Scan(EmptyMainBuckets()) == []
  {
    var f := EmptyMainBuckets();
    forall i | 0 <= i < N_MAIN_BUCKETS ensures ChainRecords(f, i) == [] {
      assert LinkOk(f, i);
      assert ChainFrom(f, i) == [i];
      assert Gather(f, [i]) == f[i].records + Gather(f, []);
    }
    FlattenEmpties(Chains(f));
  }

  lemma {:induction false} FlattenEmpties<T>(cs: seq<seq<T>>)
    requires forall i :: 0 <= i < |cs| ==> cs[i] == []
    ensures Flatten(cs) == []
  {
    if cs != [] {
      FlattenEmpties(cs[..|cs| - 1]);
    }
  }

  // ---------------------------------------------------------------------------
  // Lemmas about chains

  /** Every bucket on a chain has the owner of the chain's first bucket. */
  lemma {:induction false} ChainOwned(f: seq<Bucket>, owner: seq<nat>, k: nat)
    requires Inv(f, owner) && k < |f|
    ensures forall j :: 0 <= j < |ChainFrom(f, k)| ==> owner[ChainFrom(f, k)[j]] == owner[k]
    decreases |f| - k
  {
    assert LinkOk(f, k);
    if f[k].next != -1 {
      ChainOwned(f, owner, f[k].next / SIZE_OF_BUCKET);
    }
  }

  /** The bucket a chain member links to is on the chain too. */
  lemma {:induction false} ChainContinues(f: seq<Bucket>, i: nat, j: nat)
    requires Linked(f) && i < |f| && j in ChainFrom(f, i) && f[j].next != -1
    ensures LinkOk(f, j)
    ensures f[j].next / SIZE_OF_BUCKET in ChainFrom(f, i)
    decreases |f| - i
  {
    assert LinkOk(f, i) && LinkOk(f, j);
    if i != j {
      ChainContinues(f, f[i].next / SIZE_OF_BUCKET, j);
    }
  }

  /** Every bucket of a well-formed file is reached from the main bucket that owns it. */
  lemma {:induction false} OnOwnersChain(f: seq<Bucket>, owner: seq<nat>, k: nat)
    requires Inv(f, owner) && k < |f|
    ensures owner[k] < |f|
    ensures k in ChainFrom(f, owner[k])
    decreases k
  {
    if k >= N_MAIN_BUCKETS {
      assert HasParent(f, k);
      var j :| 0 <= j < k && f[j].next == Offset(k);
      OnOwnersChain(f, owner, j);
      ChainContinues(f, owner[j], j);
    }
  }

  /** Chains depend only on the `next` fields. */
  lemma {:induction false} ChainSameLinks(f: seq<Bucket>, g: seq<Bucket>, k: nat)
    requires Linked(f) && |g| == |f| && k < |f|
    requires forall j :: 0 <= j < |f| ==> g[j].next == f[j].next
    ensures Linked(g)
    ensures ChainFrom(g, k) == ChainFrom(f, k)
    decreases |f| - k
  {
    assert forall j :: 0 <= j < |f| ==> LinkOk(f, j) == LinkOk(g, j);
    assert LinkOk(f, k);
    if f[k].next != -1 {
      ChainSameLinks(f, g, f[k].next / SIZE_OF_BUCKET);
    }
  }

  /**
   * After bucket t, the tail of its chain, is linked to a new bucket appended at
   * the end of the file, the chains through t gain that bucket and the others
   * stay as they were.
   */
  lemma {:induction false} ChainAfterAppend(f: seq<Bucket>, g: seq<Bucket>, t: nat, k: nat)
    requires Linked(f) && t < |f| && f[t].next == -1 && k < |f|
    requires |g| == |f| + 1 && g[|f|].next == -1 && g[t].next == Offset(|f|)
    requires forall j :: 0 <= j < |f| && j != t ==> g[j].next == f[j].next
    ensures Linked(g)
    ensures ChainFrom(g, k) == if t in ChainFrom(f, k) then ChainFrom(f, k) + [|f|] else ChainFrom(f, k)
    decreases |f| - k
  {
    assert forall j :: 0 <= j < |f| && j != t ==> LinkOk(f, j) ==> LinkOk(g, j);
    assert LinkOk(g, t) && LinkOk(g, |f|);
    assert Linked(g);
    assert LinkOk(f, k);
    if k == t {
      assert ChainFrom(g, |f|) == [|f|];
    } else if f[k].next != -1 {
      ChainAfterAppend(f, g, t, f[k].next / SIZE_OF_BUCKET);
    }
  }

  lemma {:induction false} GatherSplit(f: seq<Bucket>, ks: seq<nat>, p: nat)
    requires InFile(f, ks) && p < |ks|
    ensures Gather(f, ks) == Gather(f, ks[..p]) + f[ks[p]].records + Gather(f, ks[p + 1..])
  {
    if p > 0 {
      GatherSplit(f, ks[1..], p - 1);
      assert ks[1..][..p - 1] == ks[..p][1..];
      assert ks[1..][p..] == ks[p + 1..];
    } else {
      assert ks[..0] == [];
    }
  }

  /** Extending a prefix of ks by the next bucket extends its records by that bucket's. */
  lemma GatherStep(f: seq<Bucket>, ks: seq<nat>, p: nat)
    requires InFile(f, ks) && p < |ks|
    ensures Gather(f, ks[..p + 1]) == Gather(f, ks[..p]) + f[ks[p]].records
  {
    assert ks[..p + 1] == ks[..p] + [ks[p]];
    GatherAppend(f, ks[..p], ks[p]);
  }

  lemma {:induction false} GatherAppend(f: seq<Bucket>, ks: seq<nat>, k: nat)
    requires InFile(f, ks) && k < |f|
    ensures InFile(f, ks + [k])
    ensures Gather(f, ks + [k]) == Gather(f, ks) + f[k].records
  {
    if ks != [] {
      assert (ks + [k])[1..] == ks[1..] + [k];
      GatherAppend(f, ks[1..], k);
    } else {
      assert Gather(f, [k]) == f[k].records + Gather(f, []);
    }
  }

  /** Gather reads only the buckets it is given. */
  lemma {:induction false} GatherFrame(f: seq<Bucket>, g: seq<Bucket>, ks: seq<nat>)
    requires InFile(f, ks) && InFile(g, ks)
    requires forall j :: 0 <= j < |ks| ==> g[ks[j]].records == f[ks[j]].records
    ensures Gather(g, ks) == Gather(f, ks)
  {
    if ks != [] {
      GatherFrame(f, g, ks[1..]);
    }
  }

  /** Replacing the records of one bucket of ks changes Gather at that bucket only. */
  lemma GatherUpdate(f: seq<Bucket>, ks: seq<nat>, p: nat, nb: Bucket)
    requires InFile(f, ks) && p < |ks|
    requires forall i, j :: 0 <= i < j < |ks| ==> ks[i] < ks[j]
    ensures InFile(f[ks[p] := nb], ks)
    ensures Gather(f[ks[p] := nb], ks) == Gather(f, ks[..p]) + nb.records + Gather(f, ks[p + 1..])
  {
    var g := f[ks[p] := nb];
    GatherSplit(g, ks, p);
    GatherFrame(f, g, ks[..p]);
    GatherFrame(f, g, ks[p + 1..]);
  }

  /** A bucket not on ks can change without changing Gather over ks. */
  lemma GatherUpdateElsewhere(f: seq<Bucket>, ks: seq<nat>, b: nat, nb: Bucket)
    requires InFile(f, ks) && b < |f| && b !in ks
    ensures InFile(f[b := nb], ks)
    ensures Gather(f[b := nb], ks) == Gather(f, ks)
  {
    GatherFrame(f, f[b := nb], ks);
  }

  /** The first match in A + B is the first match in A, or else the first in B shifted by |A|. */
  lemma {:induction false} FindIndexAppend(a: seq<Record>, b: seq<Record>, key: int)
    ensures FindIndex(a + b, key)
            == if FindIndex(a, key) < |a| then FindIndex(a, key) else |a| + FindIndex(b, key)
  {
    if a != [] {
      assert (a + b)[1..] == a[1..] + b;
      FindIndexAppend(a[1..], b, key);
    } else {
      assert a + b == b;
    }
  }

  /** The first match in A + B is the first match in A, or else the first in B. */
  lemma {:induction false} FindFirstAppend(a: seq<Record>, b: seq<Record>, key: int)
    ensures FindFirst(a + b, key) == if FindFirst(a, key).Some? then FindFirst(a, key) else FindFirst(b, key)
  {
    if a != [] {
      assert (a + b)[1..] == a[1..] + b;
      FindFirstAppend(a[1..], b, key);
    } else {
      assert a + b == b;
    }
  }

  /** The record search returns is the one at the position FindIndex reports. */
  lemma {:induction false} FindFirstAt(rs: seq<Record>, key: int)
    ensures FindFirst(rs, key) == if FindIndex(rs, key) < |rs| then Some(rs[FindIndex(rs, key)]) else None
  {
    if rs != [] && rs[0].idVenta != key {
      FindFirstAt(rs[1..], key);
    }
  }

  /** A record that is on a sequence makes the search for its key succeed. */
  lemma FindIndexFinds(rs: seq<Record>, x: Record)
    requires x in rs
    ensures FindIndex(rs, x.idVenta) < |rs|
  {
    var i :| 0 <= i < |rs| && rs[i] == x;
    assert rs[i].idVenta == x.idVenta;
  }

  /** Gather over buckets none of which holds the key has no record with the key. */
  lemma {:induction false} GatherMisses(f: seq<Bucket>, ks: seq<nat>, key: int)
    requires InFile(f, ks)
    requires forall q :: 0 <= q < |ks| ==> FindIndex(f[ks[q]].records, key) == |f[ks[q]].records|
    ensures FindIndex(Gather(f, ks), key) == |Gather(f, ks)|
  {
    if ks != [] {
      GatherMisses(f, ks[1..], key);
      FindIndexAppend(f[ks[0]].records, Gather(f, ks[1..]), key);
    }
  }

  // ---------------------------------------------------------------------------
  // What add promises

  /** `add(r)` when the key's main bucket has a free slot: r is appended to it and nothing else changes. */
  lemma AddToMainBucket(f: seq<Bucket>, r: Record)
    requires Linked(f) && N_MAIN_BUCKETS <= |f|
    requires |f[Hash(r.idVenta)].records| < BLOCK_FACTOR
    ensures Added(f, r) == f[Hash(r.idVenta) := Bucket(f[Hash(r.idVenta)].records + [r], f[Hash(r.idVenta)].next)]
  {
  }

  /**
   * `add(r)` when the p-th bucket of the key's chain is the first with a free
   * slot: r is appended to that bucket, every other bucket stays, the file keeps
   * its size.
   */
  lemma AddToBucketWithRoom(f: seq<Bucket>, r: Record, p: nat)
    requires Linked(f) && N_MAIN_BUCKETS <= |f|
    requires p < |ChainFrom(f, Hash(r.idVenta))|
    requires |f[ChainFrom(f, Hash(r.idVenta))[p]].records| < BLOCK_FACTOR
    requires forall q :: 0 <= q < p ==> |f[ChainFrom(f, Hash(r.idVenta))[q]].records| >= BLOCK_FACTOR
    ensures var b := ChainFrom(f, Hash(r.idVenta))[p];
            Added(f, r) == f[b := Bucket(f[b].records + [r], f[b].next)]
  {
    var ks := ChainFrom(f, Hash(r.idVenta));
    FirstWithRoomIsFirst(f, ks, p);
  }

  lemma {:induction false} FirstWithRoomIsFirst(f: seq<Bucket>, ks: seq<nat>, p: nat)
    requires InFile(f, ks) && p < |ks| && |f[ks[p]].records| < BLOCK_FACTOR
    requires forall q :: 0 <= q < p ==> |f[ks[q]].records| >= BLOCK_FACTOR
    ensures FirstWithRoom(f, ks) == p
  {
    if p > 0 {
      FirstWithRoomIsFirst(f, ks[1..], p - 1);
    }
  }

  /**
   * `add(r)` when every bucket of the key's chain is full: exactly one bucket [r]
   * with next -1 is appended, the old tail t of the chain now links to it, and
   * every other bucket stays.
   */
  lemma AddToNewBucket(f: seq<Bucket>, r: Record)
    requires Linked(f) && N_MAIN_BUCKETS <= |f|
    requires forall q :: 0 <= q < |ChainFrom(f, Hash(r.idVenta))| ==>
               |f[ChainFrom(f, Hash(r.idVenta))[q]].records| >= BLOCK_FACTOR
    ensures var ks := ChainFrom(f, Hash(r.idVenta));
            var t := ks[|ks| - 1];
            var g := Added(f, r);
            |g| == |f| + 1 && g[|f|] == Bucket([r], -1)
            && g[t] == Bucket(f[t].records, Offset(|f|))
            && (forall j :: 0 <= j < |f| && j != t ==> g[j] == f[j])
  {
  }

  /** Replacing the records of one bucket by records of the same owner keeps the file well formed. */
  lemma InvReplaceBucket(f: seq<Bucket>, owner: seq<nat>, b: nat, nb: Bucket)
    requires Inv(f, owner) && b < |f|
    requires nb.next == f[b].next && |nb.records| <= BLOCK_FACTOR
    requires forall x :: x in nb.records ==> Hash(x.idVenta) == owner[b]
    ensures Inv(f[b := nb], owner)
  {
    var g := f[b := nb];
    assert forall k :: 0 <= k < |g| ==> g[k].next == f[k].next;
    LinksKept(f, owner, g);
    forall k | 0 <= k < |g| ensures |g[k].records| <= BLOCK_FACTOR {
      if k != b { assert g[k].records == f[k].records; }
    }
    forall k, x | 0 <= k < |g| && x in g[k].records ensures Hash(x.idVenta) == owner[k] {
      if k != b { assert g[k].records == f[k].records; }
    }
  }

  /** A file whose buckets keep their `next` offsets keeps the link part of the invariant. */
  lemma LinksKept(f: seq<Bucket>, owner: seq<nat>, g: seq<Bucket>)
    requires Inv(f, owner) && |g| == |f|
    requires forall k :: 0 <= k < |g| ==> g[k].next == f[k].next
    ensures Linked(g)
    ensures forall k :: 0 <= k < |g| && g[k].next != -1 ==>
              LinkOk(g, k) && owner[g[k].next / SIZE_OF_BUCKET] == owner[k]
    ensures forall k :: N_MAIN_BUCKETS <= k < |g| ==> HasParent(g, k)
  {
    forall k | 0 <= k < |g|
      ensures LinkOk(g, k)
      ensures g[k].next != -1 ==> owner[g[k].next / SIZE_OF_BUCKET] == owner[k]
    {
      assert LinkOk(f, k);
    }
    forall k | N_MAIN_BUCKETS <= k < |g| ensures HasParent(g, k) {
      assert HasParent(f, k);
      var j :| 0 <= j < k && f[j].next == Offset(k);
      assert 0 <= j < k && g[j].next == Offset(k);
    }
  }

  /**
   * Linking the tail t of a chain to a new bucket [r] appended at the end of the
   * file keeps it well formed, the new bucket getting the owner of t.
   */
  lemma InvAppendBucket(f: seq<Bucket>, owner: seq<nat>, t: nat, r: Record)
    requires Inv(f, owner) && t < |f| && f[t].next == -1 && Hash(r.idVenta) == owner[t]
    ensures Inv(f[t := Bucket(f[t].records, Offset(|f|))] + [Bucket([r], -1)], owner + [owner[t]])
  {
    var g := f[t := Bucket(f[t].records, Offset(|f|))] + [Bucket([r], -1)];
    var owner' := owner + [owner[t]];
    forall k | 0 <= k < |g|
      ensures LinkOk(g, k) && |g[k].records| <= BLOCK_FACTOR && owner'[k] < N_MAIN_BUCKETS
      ensures g[k].next != -1 ==> owner'[g[k].next / SIZE_OF_BUCKET] == owner'[k]
    {
      if k < |f| && k != t {
        assert g[k] == f[k] && owner'[k] == owner[k];
        assert LinkOk(f, k);
        if f[k].next != -1 {
          assert owner'[f[k].next / SIZE_OF_BUCKET] == owner[f[k].next / SIZE_OF_BUCKET];
        }
      }
    }
    assert forall k :: 0 <= k < N_MAIN_BUCKETS ==> owner'[k] == owner[k];
    forall k, x | 0 <= k < |g| && x in g[k].records ensures Hash(x.idVenta) == owner'[k] {
      if k < |f| {
        assert x in f[k].records;
      }
    }
    forall k | N_MAIN_BUCKETS <= k < |g| ensures HasParent(g, k) {
      if k < |f| {
        assert HasParent(f, k);
        var j :| 0 <= j < k && f[j].next == Offset(k);
        assert j != t;
        assert g[j].next == Offset(k);
      } else {
        assert g[t].next == Offset(k);
      }
    }
  }

  /** `add` keeps the file well formed; only a bucket it appends gets an owner, the key's main bucket. */
  lemma AddedInv(f: seq<Bucket>, owner: seq<nat>, r: Record)
    requires Inv(f, owner)
    ensures Inv(Added(f, r), AddedOwner(f, owner, r))
  {
    var h := Hash(r.idVenta);
    var ks := ChainFrom(f, h);
    var p := FirstWithRoom(f, ks);
    ChainOwned(f, owner, h);
    if p < |ks| {
      var b := ks[p];
      assert owner[b] == h;
      InvReplaceBucket(f, owner, b, Bucket(f[b].records + [r], f[b].next));
    } else {
      ChainShape(f, h);
      InvAppendBucket(f, owner, ks[|ks| - 1], r);
    }
  }

  function AddedOwner(f: seq<Bucket>, owner: seq<nat>, r: Record): seq<nat>
    requires Linked(f) && N_MAIN_BUCKETS <= |f|
  {
    if |Added(f, r)| == |f| then owner else owner + [Hash(r.idVenta)]
  }

  // ---------------------------------------------------------------------------
  // How the chains change when one bucket changes

  /**
   * Changing the records of bucket b, which is the p-th bucket of its owner's
   * chain, changes that chain's records at b's place only and no other chain.
   */
  lemma ChainAfterUpdate(f: seq<Bucket>, h: nat, p: nat, nb: Bucket)
    requires Linked(f) && h < |f| && p < |ChainFrom(f, h)|
    requires nb.next == f[ChainFrom(f, h)[p]].next
    ensures Linked(f[ChainFrom(f, h)[p] := nb])
    ensures var ks := ChainFrom(f, h);
            ChainRecords(f, h) == Gather(f, ks[..p]) + f[ks[p]].records + Gather(f, ks[p + 1..])
            && ChainRecords(f[ks[p] := nb], h) == Gather(f, ks[..p]) + nb.records + Gather(f, ks[p + 1..])
  {
    var ks := ChainFrom(f, h);
    var g := f[ks[p] := nb];
    ChainShape(f, h);
    ChainSameLinks(f, g, h);
    GatherSplit(f, ks, p);
    GatherUpdate(f, ks, p, nb);
  }

  /** Replacing the records of bucket b changes the records of no chain but its owner's. */
  lemma OtherChainsAfterUpdate(f: seq<Bucket>, owner: seq<nat>, b: nat, nb: Bucket)
    requires Inv(f, owner) && b < |f| && nb.next == f[b].next
    ensures Linked(f[b := nb])
    ensures forall i :: 0 <= i < N_MAIN_BUCKETS && i != owner[b] ==>
              ChainRecords(f[b := nb], i) == ChainRecords(f, i)
  {
    var g := f[b := nb];
    forall k | 0 <= k < |g| ensures LinkOk(g, k) {
      assert LinkOk(f, k);
    }
    forall i | 0 <= i < N_MAIN_BUCKETS && i != owner[b] ensures ChainRecords(g, i) == ChainRecords(f, i) {
      ChainSameLinks(f, g, i);
      ChainOwned(f, owner, i);
      GatherUpdateElsewhere(f, ChainFrom(f, i), b, nb);
    }
  }

  /**
   * Linking the tail t of a chain to a new bucket [r] appended at the end adds r
   * at the end of that chain's records and changes no other chain.
   */
  lemma ChainGrowsAfterAppend(f: seq<Bucket>, h: nat, r: Record)
    requires Linked(f) && h < |f|
    ensures var t := ChainFrom(f, h)[|ChainFrom(f, h)| - 1];
            var g := f[t := Bucket(f[t].records, Offset(|f|))] + [Bucket([r], -1)];
            Linked(g) && ChainRecords(g, h) == ChainRecords(f, h) + [r]
  {
    var ks := ChainFrom(f, h);
    var t := ks[|ks| - 1];
    var g := f[t := Bucket(f[t].records, Offset(|f|))] + [Bucket([r], -1)];
    ChainShape(f, h);
    ChainAfterAppend(f, g, t, h);
    GatherAppend(g, ks, |f|);
    GatherFrame(f, g, ks);
    assert Gather(g, [|f|]) == [r] + Gather(g, []);
  }

  /** Linking the tail t of a chain to a new bucket changes the records of no other chain. */
  lemma OtherChainGrowsAfterAppend(f: seq<Bucket>, owner: seq<nat>, t: nat, r: Record)
    requires Inv(f, owner) && t < |f| && f[t].next == -1
    ensures Linked(f[t := Bucket(f[t].records, Offset(|f|))] + [Bucket([r], -1)])
    ensures forall i :: 0 <= i < N_MAIN_BUCKETS && i != owner[t] ==>
              ChainRecords(f[t := Bucket(f[t].records, Offset(|f|))] + [Bucket([r], -1)], i) == ChainRecords(f, i)
  {
    var g := f[t := Bucket(f[t].records, Offset(|f|))] + [Bucket([r], -1)];
    ChainAfterAppend(f, g, t, t);
    forall i | 0 <= i < N_MAIN_BUCKETS && i != owner[t] ensures ChainRecords(g, i) == ChainRecords(f, i) {
      ChainAfterAppend(f, g, t, i);
      ChainOwned(f, owner, i);
      GatherFrame(f, g, ChainFrom(f, i));
    }
  }

  lemma InsertAfter(x: seq<Record>, y: seq<Record>, z: seq<Record>, r: Record)
    ensures x + (y + [r]) + z == (x + y) + [r] + z
    ensures x + y + z == (x + y) + z
  {
  }

  // ---------------------------------------------------------------------------
  // What add promises

  /**
   * On the chain of r's key, `add(r)` inserts r among the records already there
   * (right after those of the bucket that receives it); every other chain keeps
   * its records.
   */
  lemma AddedChains(f: seq<Bucket>, r: Record)
    requires Linked(f) && N_MAIN_BUCKETS <= |f|
    ensures Linked(Added(f, r))
    ensures exists a, b :: ChainRecords(f, Hash(r.idVenta)) == a + b
                           && ChainRecords(Added(f, r), Hash(r.idVenta)) == a + [r] + b
  {
    var h := Hash(r.idVenta);
    var ks := ChainFrom(f, h);
    var p := FirstWithRoom(f, ks);
    if p < |ks| {
      var b := ks[p];
      var nb := Bucket(f[b].records + [r], f[b].next);
      ChainAfterUpdate(f, h, p, nb);
      var a := Gather(f, ks[..p]) + f[b].records;
      var c := Gather(f, ks[p + 1..]);
      InsertAfter(Gather(f, ks[..p]), f[b].records, c, r);
      assert ChainRecords(f, h) == a + c && ChainRecords(Added(f, r), h) == a + [r] + c;
    } else {
      ChainGrowsAfterAppend(f, h, r);
      var a := ChainRecords(f, h);
      assert a == a + [];
      assert ChainRecords(f, h) == a + [] && ChainRecords(Added(f, r), h) == a + [r] + [];
    }
  }

  /** `add(r)` changes the records of no chain but that of r's main bucket. */
  lemma AddedOthers(f: seq<Bucket>, owner: seq<nat>, r: Record)
    requires Inv(f, owner)
    ensures Linked(Added(f, r))
    ensures forall i :: 0 <= i < N_MAIN_BUCKETS && i != Hash(r.idVenta) ==>
              ChainRecords(Added(f, r), i) == ChainRecords(f, i)
  {
    var h := Hash(r.idVenta);
    var ks := ChainFrom(f, h);
    var p := FirstWithRoom(f, ks);
    ChainOwned(f, owner, h);
    if p < |ks| {
      var b := ks[p];
      OtherChainsAfterUpdate(f, owner, b, Bucket(f[b].records + [r], f[b].next));
    } else {
      ChainShape(f, h);
      OtherChainGrowsAfterAppend(f, owner, ks[|ks| - 1], r);
    }
  }

  /** Inserting r into a sequence of records, as seen by the search for a key. */
  lemma FindAfterInsert(a: seq<Record>, b: seq<Record>, r: Record, key: int)
    ensures FindFirst(a + [r] + b, r.idVenta).Some?
    ensures FindFirst(a + [r] + b, r.idVenta).value.idVenta == r.idVenta
    ensures FindFirst(a + b, r.idVenta) == None ==> FindFirst(a + [r] + b, r.idVenta) == Some(r)
    ensures key != r.idVenta ==> FindFirst(a + [r] + b, key) == FindFirst(a + b, key)
  {
    assert a + [r] + b == a + ([r] + b);
    FindInserted(a, r, b);
    if key != r.idVenta {
      FindWithout(a, r, b, key);
    }
  }

  lemma FindInserted(a: seq<Record>, r: Record, b: seq<Record>)
    ensures FindFirst(a + ([r] + b), r.idVenta).Some?
    ensures FindFirst(a + ([r] + b), r.idVenta).value.idVenta == r.idVenta
    ensures FindFirst(a + b, r.idVenta) == None ==> FindFirst(a + ([r] + b), r.idVenta) == Some(r)
  {
    FindFirstAppend(a, [r] + b, r.idVenta);
    FindFirstAppend(a, b, r.idVenta);
  }

  /**
   * After `add(r)`, `search(r.id_venta)` finds a record with that key: r itself
   * when the key was absent before. Searches for other keys are unaffected.
   */
  lemma AddThenLookup(f: seq<Bucket>, owner: seq<nat>, r: Record, key: int)
    requires Inv(f, owner)
    ensures Linked(Added(f, r))
    ensures Lookup(Added(f, r), r.idVenta).Some?
    ensures Lookup(Added(f, r), r.idVenta).value.idVenta == r.idVenta
    ensures Lookup(f, r.idVenta) == None ==> Lookup(Added(f, r), r.idVenta) == Some(r)
    ensures key != r.idVenta ==> Lookup(Added(f, r), key) == Lookup(f, key)
  {
    AddedChains(f, r);
    AddedOthers(f, owner, r);
    var h := Hash(r.idVenta);
    var a, b :| ChainRecords(f, h) == a + b && ChainRecords(Added(f, r), h) == a + [r] + b;
    FindAfterInsert(a, b, r, key);
  }

  /** The first n chains of two lists of chains that differ at most at chain h, when n <= h. */
  lemma FlattenSame<T>(cs: seq<seq<T>>, ds: seq<seq<T>>, h: nat, n: nat)
    requires |cs| == |ds| && h < |cs| && n <= h
    requires forall i :: 0 <= i < |cs| && i != h ==> ds[i] == cs[i]
    ensures Flatten(ds[..n]) == Flatten(cs[..n])
  {
    assert ds[..n] == cs[..n];
  }

  /** The records of the first n chains of two lists of chains that differ at most at chain h < n. */
  lemma {:induction false} FlattenChanged<T>(cs: seq<seq<T>>, ds: seq<seq<T>>, h: nat, n: nat)
    requires |cs| == |ds| && h < n <= |cs|
    requires forall i :: 0 <= i < |cs| && i != h ==> ds[i] == cs[i]
    ensures multiset(Flatten(ds[..n])) + multiset(cs[h]) == multiset(Flatten(cs[..n])) + multiset(ds[h])
  {
    FlattenStep(cs, n);
    FlattenStep(ds, n);
    var sc, sd := multiset(Flatten(cs[..n - 1])), multiset(Flatten(ds[..n - 1]));
    if n - 1 == h {
      FlattenSame(cs, ds, h, h);
      MultisetSwap(multiset(Flatten(ds[..n])), multiset(Flatten(cs[..n])), sd, sc, multiset(ds[h]), multiset(cs[h]));
    } else {
      FlattenChanged(cs, ds, h, n - 1);
      MultisetShuffle(multiset(Flatten(ds[..n])), multiset(Flatten(cs[..n])), sd, sc,
                      multiset(cs[h]), multiset(ds[h]), multiset(cs[n - 1]));
    }
  }

  lemma FlattenStep<T>(cs: seq<seq<T>>, n: nat)
    requires 0 < n <= |cs|
    ensures Flatten(cs[..n]) == Flatten(cs[..n - 1]) + cs[n - 1]
  {
    assert cs[..n][..n - 1] == cs[..n - 1];
  }

  /** Scans of two files whose chains differ at most at chain h. */
  lemma ScanChanged(f: seq<Bucket>, g: seq<Bucket>, h: nat)
    requires Linked(f) && Linked(g) && N_MAIN_BUCKETS <= |f| && N_MAIN_BUCKETS <= |g|
    requires h < N_MAIN_BUCKETS
    requires forall i :: 0 <= i < N_MAIN_BUCKETS && i != h ==> ChainRecords(g, i) == ChainRecords(f, i)
    ensures multiset(Scan(g)) + multiset(ChainRecords(f, h)) == multiset(Scan(f)) + multiset(ChainRecords(g, h))
  {
    var cs, ds := Chains(f), Chains(g);
    FlattenChanged(cs, ds, h, N_MAIN_BUCKETS);
    assert cs[..N_MAIN_BUCKETS] == cs && ds[..N_MAIN_BUCKETS] == ds;
  }

  lemma MultisetSwap<T>(x: multiset<T>, y: multiset<T>, a: multiset<T>, b: multiset<T>, p: multiset<T>, q: multiset<T>)
    requires x == a + p && y == b + q && a == b
    ensures x + q == y + p
  {
  }

  lemma MultisetShuffle<T>(x: multiset<T>, y: multiset<T>, a: multiset<T>, b: multiset<T>,
                           c: multiset<T>, d: multiset<T>, e: multiset<T>)
    requires x == a + e && y == b + e && a + c == b + d
    ensures x + c == y + d
  {
    forall z ensures (x + c)[z] == (y + d)[z] {
      assert (a + c)[z] == (b + d)[z];
    }
  }

  /** `scanAll` after `add(r)` lists the same records as before plus r. */
  lemma ScanAdded(f: seq<Bucket>, owner: seq<nat>, r: Record)
    requires Inv(f, owner)
    ensures Linked(Added(f, r))
    ensures multiset(Scan(Added(f, r))) == multiset(Scan(f)) + multiset{r}
  {
    AddedOthers(f, owner, r);
    var h := Hash(r.idVenta);
    var g := Added(f, r);
    AddedChainMultiset(f, r);
    AddedGrows(f, r);
    ScanChanged(f, g, h);
    MultisetAdded(multiset(Scan(g)), multiset(Scan(f)), multiset(ChainRecords(f, h)), multiset(ChainRecords(g, h)), r);
  }

  /** The chain the record hashes to gains exactly that record. */
  lemma AddedChainMultiset(f: seq<Bucket>, r: Record)
    requires Linked(f) && N_MAIN_BUCKETS <= |f|
    ensures Linked(Added(f, r))
    ensures multiset(ChainRecords(Added(f, r), Hash(r.idVenta)))
            == multiset(ChainRecords(f, Hash(r.idVenta))) + multiset{r}
  {
    AddedChains(f, r);
    var h := Hash(r.idVenta);
    var a, b :| ChainRecords(f, h) == a + b && ChainRecords(Added(f, r), h) == a + [r] + b;
    InsertMultiset(ChainRecords(f, h), ChainRecords(Added(f, r), h), a, b, r);
  }

  /** Adding never removes a bucket. */
  lemma AddedGrows(f: seq<Bucket>, r: Record)
    requires Linked(f) && N_MAIN_BUCKETS <= |f|
    ensures |Added(f, r)| >= |f|
  {
    var ks := ChainFrom(f, Hash(r.idVenta));
    if FirstWithRoom(f, ks) == |ks| {
      assert |Added(f, r)| == |f| + 1;
    }
  }

  lemma InsertMultiset<T>(before: seq<T>, after: seq<T>, a: seq<T>, b: seq<T>, x: T)
    requires before == a + b && after == a + [x] + b
    ensures multiset(after) == multiset(before) + multiset{x}
  {
  }

  lemma MultisetAdded<T>(a: multiset<T>, b: multiset<T>, c: multiset<T>, d: multiset<T>, x: T)
    requires a + c == b + d && d == c + multiset{x}
    ensures a == b + multiset{x}
  {
    forall y ensures a[y] == (b + multiset{x})[y] {
      assert (a + c)[y] == (b + d)[y];
    }
  }

  // ---------------------------------------------------------------------------
  // What delete promises

  /**
   * The first bucket of ks holding the key is where the search through the
   * records of ks finds it, after the records of the buckets before it.
   */
  lemma {:induction false} FirstHoldingFinds(f: seq<Bucket>, ks: seq<nat>, key: int)
    requires InFile(f, ks)
    ensures var p := FirstHolding(f, ks, key);
            var rs := Gather(f, ks);
            (p < |ks| <==> FindIndex(rs, key) < |rs|)
            && (p < |ks| ==> FindIndex(rs, key) == |Gather(f, ks[..p])| + FindIndex(f[ks[p]].records, key))
  {
    if ks != [] {
      var p := FirstHolding(f, ks, key);
      FirstHoldingFinds(f, ks[1..], key);
      FindIndexAppend(f[ks[0]].records, Gather(f, ks[1..]), key);
      if p == 0 {
        assert Gather(f, ks[..0]) == [];
      } else if p < |ks| {
        assert ks[..p][1..] == ks[1..][..p - 1];
        assert Gather(f, ks[..p]) == f[ks[0]].records + Gather(f, ks[1..][..p - 1]);
      }
    }
  }

  /**
   * The effect of `delete(key)` on the buckets: it reports a removal exactly when
   * `search(key)` finds a record; then it removes the first record with the key
   * from the first bucket of the key's chain holding one and changes nothing
   * else, `next` fields included, so an emptied bucket stays linked. When the
   * key is absent nothing changes.
   */
  lemma DeleteEffect(f: seq<Bucket>, key: int)
    requires Linked(f) && N_MAIN_BUCKETS <= |f|
    ensures Deleted(f, key).0 <==> Lookup(f, key).Some?
    ensures !Deleted(f, key).0 ==> Deleted(f, key).1 == f
    ensures Deleted(f, key).0 ==>
              exists j :: j in ChainFrom(f, Hash(key)) && FindIndex(f[j].records, key) < |f[j].records|
                && Deleted(f, key).1
                   == f[j := Bucket(RemoveAt(f[j].records, FindIndex(f[j].records, key)), f[j].next)]
  {
    var ks := ChainFrom(f, Hash(key));
    FirstHoldingFinds(f, ks, key);
    FindFirstAt(ChainRecords(f, Hash(key)), key);
    var p := FirstHolding(f, ks, key);
    if p < |ks| {
      var j := ks[p];
      assert j in ks;
    }
  }

  /**
   * `delete(key)` when the p-th bucket of the key's chain is the first holding
   * the key: the first record with the key is removed from that bucket only.
   */
  lemma DeleteFromBucket(f: seq<Bucket>, key: int, p: nat)
    requires Linked(f) && N_MAIN_BUCKETS <= |f|
    requires p < |ChainFrom(f, Hash(key))|
    requires var rs := f[ChainFrom(f, Hash(key))[p]].records; FindIndex(rs, key) < |rs|
    requires forall q :: 0 <= q < p ==>
               FindIndex(f[ChainFrom(f, Hash(key))[q]].records, key) == |f[ChainFrom(f, Hash(key))[q]].records|
    ensures var b := ChainFrom(f, Hash(key))[p];
            Deleted(f, key) == (true, f[b := Bucket(RemoveAt(f[b].records, FindIndex(f[b].records, key)), f[b].next)])
  {
    var ks := ChainFrom(f, Hash(key));
    var p' := FirstHolding(f, ks, key);
    assert p' == p;
  }

  /** `delete(key)` when no bucket of the key's chain holds the key: nothing changes. */
  lemma DeleteAbsent(f: seq<Bucket>, key: int)
    requires Linked(f) && N_MAIN_BUCKETS <= |f|
    requires forall q :: 0 <= q < |ChainFrom(f, Hash(key))| ==>
               FindIndex(f[ChainFrom(f, Hash(key))[q]].records, key) == |f[ChainFrom(f, Hash(key))[q]].records|
    ensures Deleted(f, key) == (false, f)
  {
    var ks := ChainFrom(f, Hash(key));
    assert FirstHolding(f, ks, key) == |ks|;
  }

  /** Removing the first record with a key leaves the search for any other key as it was. */
  lemma FindAfterRemove(rs: seq<Record>, key: int, other: int)
    requires FindIndex(rs, key) < |rs| && other != key
    ensures FindFirst(RemoveAt(rs, FindIndex(rs, key)), other) == FindFirst(rs, other)
  {
    var i := FindIndex(rs, key);
    SplitAt(rs, i);
    FindWithout(rs[..i], rs[i], rs[i + 1..], other);
  }

  /** A record without the key does not change what the search for the key finds. */
  lemma FindWithout(a: seq<Record>, x: Record, b: seq<Record>, key: int)
    requires x.idVenta != key
    ensures FindFirst(a + ([x] + b), key) == FindFirst(a + b, key)
  {
    FindFirstAppend(a, [x] + b, key);
    FindFirstAppend(a, b, key);
    assert ([x] + b)[1..] == b;
  }

  lemma SplitAt<T>(s: seq<T>, i: nat)
    requires i < |s|
    ensures s == s[..i] + ([s[i]] + s[i + 1..])
    ensures ([s[i]] + s[i + 1..])[1..] == s[i + 1..]
  {
  }

  /** Removing the only record with a key leaves none. */
  lemma FindAfterRemoveUnique(rs: seq<Record>, key: int)
    requires FindIndex(rs, key) < |rs| && Unique(rs, key)
    ensures FindFirst(RemoveAt(rs, FindIndex(rs, key)), key) == None
  {
    var i := FindIndex(rs, key);
    var rest := RemoveAt(rs, i);
    forall k | 0 <= k < |rest| ensures rest[k].idVenta != key {
      if k < i {
        assert rest[k] == rs[k];
      } else {
        assert rest[k] == rs[k + 1];
      }
    }
    FindFirstAt(rest, key);
  }

  /** At most one record of rs has the key. */
  predicate Unique(rs: seq<Record>, key: int)
  {
    forall i, j :: 0 <= i < |rs| && 0 <= j < |rs| && rs[i].idVenta == key && rs[j].idVenta == key ==> i == j
  }

  /**
   * On the key's chain, `delete(key)` removes exactly the record `search(key)`
   * returns, at its position; every other chain keeps its records.
   */
  lemma DeletedChains(f: seq<Bucket>, key: int)
    requires Linked(f) && N_MAIN_BUCKETS <= |f|
    ensures Linked(Deleted(f, key).1)
    ensures Deleted(f, key).0 ==>
              var rs := ChainRecords(f, Hash(key));
              FindIndex(rs, key) < |rs|
              && ChainRecords(Deleted(f, key).1, Hash(key)) == RemoveAt(rs, FindIndex(rs, key))
  {
    var h := Hash(key);
    var ks := ChainFrom(f, h);
    var p := FirstHolding(f, ks, key);
    if p < |ks| {
      FirstHoldingFinds(f, ks, key);
      RemovedFromChain(f, h, p, FindIndex(f[ks[p]].records, key));
    }
  }

  /** Removing record i of the p-th bucket of chain h removes the matching record of the chain. */
  lemma RemovedFromChain(f: seq<Bucket>, h: nat, p: nat, i: nat)
    requires Linked(f) && h < |f| && p < |ChainFrom(f, h)|
    requires i < |f[ChainFrom(f, h)[p]].records|
    ensures var ks := ChainFrom(f, h);
            var g := f[ks[p] := Bucket(RemoveAt(f[ks[p]].records, i), f[ks[p]].next)];
            Linked(g)
            && |Gather(f, ks[..p])| + i < |ChainRecords(f, h)|
            && ChainRecords(g, h) == RemoveAt(ChainRecords(f, h), |Gather(f, ks[..p])| + i)
  {
    var ks := ChainFrom(f, h);
    var b := ks[p];
    var rs := f[b].records;
    var nb := Bucket(RemoveAt(rs, i), f[b].next);
    ChainAfterUpdate(f, h, p, nb);
    RemoveInMiddleOf(ChainRecords(f, h), Gather(f, ks[..p]), rs, Gather(f, ks[p + 1..]),
                     ChainRecords(f[b := nb], h), i);
  }

  /** Removing position i of y from x + y + z removes position |x| + i of the whole. */
  lemma RemoveInMiddleOf<T>(all: seq<T>, x: seq<T>, y: seq<T>, z: seq<T>, after: seq<T>, i: nat)
    requires all == x + y + z && i < |y|
    requires after == x + RemoveAt(y, i) + z
    ensures |x| + i < |all| && after == RemoveAt(all, |x| + i)
  {
    RemoveInMiddle(x, y, z, i);
  }

  /** `delete(key)` changes the records of no chain but that of the key's main bucket. */
  lemma DeletedOthers(f: seq<Bucket>, owner: seq<nat>, key: int)
    requires Inv(f, owner)
    ensures Linked(Deleted(f, key).1)
    ensures forall i :: 0 <= i < N_MAIN_BUCKETS && i != Hash(key) ==>
              ChainRecords(Deleted(f, key).1, i) == ChainRecords(f, i)
  {
    var h := Hash(key);
    var ks := ChainFrom(f, h);
    var p := FirstHolding(f, ks, key);
    if p < |ks| {
      var b := ks[p];
      var rs := f[b].records;
      ChainOwned(f, owner, h);
      OtherChainsAfterUpdate(f, owner, b, Bucket(RemoveAt(rs, FindIndex(rs, key)), f[b].next));
    }
  }

  /** `delete` keeps the file well formed, with the same owners. */
  lemma DeletedInv(f: seq<Bucket>, owner: seq<nat>, key: int)
    requires Inv(f, owner)
    ensures Inv(Deleted(f, key).1, owner)
  {
    var h := Hash(key);
    var ks := ChainFrom(f, h);
    var p := FirstHolding(f, ks, key);
    if p < |ks| {
      var b := ks[p];
      var rs := f[b].records;
      var nb := Bucket(RemoveAt(rs, FindIndex(rs, key)), f[b].next);
      ChainOwned(f, owner, h);
      assert forall x :: x in nb.records ==> x in rs;
      InvReplaceBucket(f, owner, b, nb);
    }
  }

  lemma RemoveInMiddle<T>(x: seq<T>, y: seq<T>, z: seq<T>, i: nat)
    requires i < |y|
    ensures RemoveAt(x + y + z, |x| + i) == x + RemoveAt(y, i) + z
  {
    var all := x + y + z;
    assert all[..|x| + i] == x + y[..i];
    assert all[|x| + i + 1..] == y[i + 1..] + z;
  }

  /**
   * After `delete(key)`, searches for every other key give what they gave before;
   * when the key's chain held the key once, searching it finds nothing.
   */
  lemma DeleteThenLookup(f: seq<Bucket>, owner: seq<nat>, key: int, other: int)
    requires Inv(f, owner)
    ensures Linked(Deleted(f, key).1)
    ensures other != key ==> Lookup(Deleted(f, key).1, other) == Lookup(f, other)
    ensures Unique(ChainRecords(f, Hash(key)), key) ==> Lookup(Deleted(f, key).1, key) == None
  {
    DeletedChains(f, key);
    DeletedOthers(f, owner, key);
    DeleteEffect(f, key);
    var rs := ChainRecords(f, Hash(key));
    if Deleted(f, key).0 {
      if other != key {
        FindAfterRemove(rs, key, other);
      }
      if Unique(rs, key) {
        FindAfterRemoveUnique(rs, key);
      }
    }
  }

  /** `scanAll` after a successful `delete(key)` lists the records of before minus the one removed. */
  lemma ScanDeleted(f: seq<Bucket>, owner: seq<nat>, key: int)
    requires Inv(f, owner)
    requires Deleted(f, key).0
    ensures Linked(Deleted(f, key).1)
    ensures Lookup(f, key).Some?
    ensures Lookup(f, key).value in multiset(Scan(f))
    ensures multiset(Scan(Deleted(f, key).1)) == multiset(Scan(f)) - multiset{Lookup(f, key).value}
  {
    DeletedChains(f, key);
    DeletedOthers(f, owner, key);
    var h := Hash(key);
    var g := Deleted(f, key).1;
    var rs := ChainRecords(f, h);
    var i := FindIndex(rs, key);
    var x := rs[i];
    FindFirstAt(rs, key);
    RemoveAtMultiset(rs, i);
    ScanChanged(f, g, h);
    MultisetRemoved(multiset(Scan(g)), multiset(Scan(f)), multiset(rs), multiset(ChainRecords(g, h)), x);
  }

  lemma RemoveAtMultiset<T>(rs: seq<T>, i: nat)
    requires i < |rs|
    ensures multiset(rs) == multiset(RemoveAt(rs, i)) + multiset{rs[i]}
  {
    assert rs == rs[..i] + [rs[i]] + rs[i + 1..];
  }

  lemma MultisetRemoved<T>(a: multiset<T>, b: multiset<T>, c: multiset<T>, d: multiset<T>, x: T)
    requires a + c == b + d && c == d + multiset{x}
    ensures x in b
    ensures a == b - multiset{x}
  {
    assert (a + c)[x] == (b + d)[x];
    forall y ensures a[y] == (b - multiset{x})[y] {
      assert (a + c)[y] == (b + d)[y];
    }
  }

  /**
   * Search is complete: a record anywhere in a well-formed file is found by
   * searching its key, since its bucket lies on the chain of the key's main bucket.
   */
  lemma LookupFindsStored(f: seq<Bucket>, owner: seq<nat>, k: nat, x: Record)
    requires Inv(f, owner) && k < |f| && x in f[k].records
    ensures Lookup(f, x.idVenta).Some?
    ensures Lookup(f, x.idVenta).value.idVenta == x.idVenta
  {
    var h := Hash(x.idVenta);
    var ks := ChainFrom(f, h);
    assert owner[k] == h;
    OnOwnersChain(f, owner, k);
    var p :| 0 <= p < |ks| && ks[p] == k;
    GatherSplit(f, ks, p);
    assert x in ChainRecords(f, h);
    FindIndexFinds(ChainRecords(f, h), x);
    FindFirstAt(ChainRecords(f, h), x.idVenta);
  }
}
