/**
 * The `StaticHashing` class of static_hashing.py: a hash file of buckets and
 * its four operations, each walking a main bucket's overflow chain the way
 * the source does and proved to do what HashChains says the operation does.
 *
 * The file is held as the buckets its blocks read back as: block i, at byte
 * offset i * SIZE_OF_BUCKET, is `file[i]`. Reading a block is `file[pos /
 * SIZE_OF_BUCKET]`; writing bucket b there stores `ReadBack(b)`, the bucket
 * `Bucket.unpack(b.pack())` gives (HashBucket.BucketRoundTrip).
 */
module StaticHash {
  import opened Wrappers
  import opened Struct
  import opened HashBucket
  import opened HashChains

  /** Every record in the file is stored as it reads back, so re-writing a bucket keeps its records. */
  predicate AllCanonical(f: seq<Bucket>)
  {
    forall k, x :: 0 <= k < |f| && x in f[k].records ==> Canonical(x)
  }

  lemma AddedCanonical(f: seq<Bucket>, x: Record)
    requires Linked(f) && N_MAIN_BUCKETS <= |f| && AllCanonical(f) && Canonical(x)
    ensures AllCanonical(Added(f, x))
  {
    var ks := ChainFrom(f, Hash(x.idVenta));
    var p := FirstWithRoom(f, ks);
    var g := Added(f, x);
    if p < |ks| {
      forall k, y | 0 <= k < |g| && y in g[k].records ensures Canonical(y) {
        if k != ks[p] {
          assert g[k] == f[k];
        } else if y != x {
          assert y in f[k].records;
        }
      }
    } else {
      var t := ks[|ks| - 1];
      forall k, y | 0 <= k < |g| && y in g[k].records ensures Canonical(y) {
        if k < |f| {
          assert g[k].records == f[k].records;
        }
      }
    }
  }

  lemma DeletedCanonical(f: seq<Bucket>, key: int)
    requires Linked(f) && N_MAIN_BUCKETS <= |f| && AllCanonical(f)
    ensures AllCanonical(Deleted(f, key).1)
  {
    var ks := ChainFrom(f, Hash(key));
    var p := FirstHolding(f, ks, key);
    var g := Deleted(f, key).1;
    if p < |ks| {
      var rs := f[ks[p]].records;
      var i := FindIndex(rs, key);
      forall k, y | 0 <= k < |g| && y in g[k].records ensures Canonical(y) {
        if k != ks[p] {
          assert g[k] == f[k];
        } else {
          assert y in rs[..i] || y in rs[i + 1..];
        }
      }
    }
  }

  lemma OffsetIndex(k: nat)
    ensures Offset(k) / SIZE_OF_BUCKET == k
  {
  }

  /** `for record in bucket.records: if record.id_venta == id_venta: return record` */
  method FindInRecords(rs: seq<Record>, key: int) returns (r: Option<Record>)
    ensures r == FindFirst(rs, key)
  {
    for i := 0 to |rs|
      invariant FindFirst(rs[i..], key) == FindFirst(rs, key)
    {
      assert rs[i..][1..] == rs[i + 1..];
      if rs[i].idVenta == key {
        return Some(rs[i]);
      }
    }
    assert rs[|rs|..] == [];
    return None;
  }

  /** `for i, record in enumerate(bucket.records): if record.id_venta == id_venta: ...`, |rs| when none matches. */
  method IndexInRecords(rs: seq<Record>, key: int) returns (i: nat)
    ensures i == FindIndex(rs, key)
  {
    i := 0;
    while i < |rs|
      invariant i <= |rs|
      invariant forall j :: 0 <= j < i ==> rs[j].idVenta != key
    {
      if rs[i].idVenta == key {
        return;
      }
      i := i + 1;
    }
  }

  // ---------------------------------------------------------------------------
  // The operations, as the source performs them on the file's blocks

  /**
   * The walk of `add(record)` along chain h: the offset of the first bucket
   * with a free slot, or of the chain's last bucket when every bucket is full.
   */
  method WalkToRoom(f: seq<Bucket>, h: nat) returns (pos: int, ghost p: nat)
    requires Linked(f) && h < |f|
    ensures p < |ChainFrom(f, h)| && pos == Offset(ChainFrom(f, h)[p])
    ensures var ks := ChainFrom(f, h);
            p == FirstWithRoom(f, ks) || (p == |ks| - 1 && FirstWithRoom(f, ks) == |ks|)
  {
    ghost var ks := ChainFrom(f, h);
    pos := h * SIZE_OF_BUCKET;
    OffsetIndex(h);
    var bucket := f[pos / SIZE_OF_BUCKET];
    p := 0;
    if |bucket.records| < BLOCK_FACTOR {
      return;
    }
    ChainNext(f, h, p);
    while bucket.next != -1
      invariant p < |ks| && pos == Offset(ks[p]) && bucket == f[ks[p]]
      invariant bucket.next == -1 <==> p == |ks| - 1
      invariant p < |ks| - 1 ==> bucket.next == Offset(ks[p + 1]) && bucket.next / SIZE_OF_BUCKET == ks[p + 1]
      invariant forall q :: 0 <= q <= p ==> |f[ks[q]].records| >= BLOCK_FACTOR
      decreases |ks| - p
    {
      pos := bucket.next;
      bucket := f[bucket.next / SIZE_OF_BUCKET];
      p := p + 1;
      ChainNext(f, h, p);
      if |bucket.records| < BLOCK_FACTOR {
        return;
      }
    }
  }

  /** `add(record)`: the file it leaves. */
  method AddToFile(f: seq<Bucket>, r: Record) returns (file: seq<Bucket>)
    requires Linked(f) && N_MAIN_BUCKETS <= |f| && AllCanonical(f)
    ensures file == Added(f, Normalize(r))
  {
    var pos, p := WalkToRoom(f, Hash(r.idVenta));
    RecordRoundTrip(r);
    OffsetIndex(ChainFrom(f, Hash(r.idVenta))[p]);
    if |f[pos / SIZE_OF_BUCKET].records| < BLOCK_FACTOR {
      file := WriteWithRoom(f, r, pos, p);
    } else {
      file := WriteNewBucket(f, r, pos, p);
    }
  }

  /** The end of `add` when the bucket at pos, the first on the chain with a free slot, takes the record. */
  method WriteWithRoom(f: seq<Bucket>, r: Record, pos: int, ghost p: nat) returns (file: seq<Bucket>)
    requires Linked(f) && N_MAIN_BUCKETS <= |f| && AllCanonical(f)
    requires p < |ChainFrom(f, Hash(r.idVenta))| && pos == Offset(ChainFrom(f, Hash(r.idVenta))[p])
    requires p == FirstWithRoom(f, ChainFrom(f, Hash(r.idVenta)))
    ensures file == Added(f, Normalize(r))
  {
    ghost var ks := ChainFrom(f, Hash(r.idVenta));
    OffsetIndex(ks[p]);
    var bucket := f[pos / SIZE_OF_BUCKET];
    AddToBucketWithRoom(f, Normalize(r), p);
    RecordRoundTrip(r);
    ReadBackAppend(bucket.records, r, bucket.next);
    file := f[pos / SIZE_OF_BUCKET := ReadBack(Bucket(bucket.records + [r], bucket.next))];
  }

  /**
   * The end of `add` when the chain is full: a bucket holding the record is
   * written at the end of the file, and the chain's last bucket, at pos, is
   * re-written to point to it.
   */
  method WriteNewBucket(f: seq<Bucket>, r: Record, pos: int, ghost p: nat) returns (file: seq<Bucket>)
    requires Linked(f) && N_MAIN_BUCKETS <= |f| && AllCanonical(f)
    requires p == |ChainFrom(f, Hash(r.idVenta))| - 1 && pos == Offset(ChainFrom(f, Hash(r.idVenta))[p])
    requires FirstWithRoom(f, ChainFrom(f, Hash(r.idVenta))) == |ChainFrom(f, Hash(r.idVenta))|
    ensures file == Added(f, Normalize(r))
  {
    ghost var ks := ChainFrom(f, Hash(r.idVenta));
    ghost var t := ks[p];
    OffsetIndex(t);
    var bucket := f[pos / SIZE_OF_BUCKET];
    var newPos := |f| * SIZE_OF_BUCKET;
    RecordRoundTrip(r);
    ghost var added := Bucket([Normalize(r)], -1);
    assert NormalizeAll([r]) == [Normalize(r)];
    file := f + [ReadBack(Bucket([r], -1))];
    bucket := Bucket(bucket.records, newPos);
    assert bucket == Bucket(f[t].records, Offset(|f|));
    ReadBackKeeps(bucket);
    file := file[pos / SIZE_OF_BUCKET := ReadBack(bucket)];
    UpdateAfterAppend(f, added, t, bucket);
    assert Added(f, Normalize(r)) == f[t := bucket] + [added];
  }

  lemma UpdateAfterAppend<T>(s: seq<T>, y: T, k: nat, v: T)
    requires k < |s|
    ensures (s + [y])[k := v] == s[k := v] + [y]
  {
  }

  /** The chain walk of `search(id_venta)`. */
  method SearchFile(file: seq<Bucket>, key: int) returns (r: Option<Record>)
    requires Linked(file) && N_MAIN_BUCKETS <= |file|
    ensures r == Lookup(file, key)
  {
    var h := Hash(key);
    ghost var ks := ChainFrom(file, h);
    var pos := h * SIZE_OF_BUCKET;
    OffsetIndex(h);
    var bucket := file[pos / SIZE_OF_BUCKET];
    GatherStep(file, ks, 0);
    assert ks[..0] == [];
    assert Gather(file, ks[..1]) == bucket.records;
    r := FindInRecords(bucket.records, key);
    if r.Some? {
      FoundOnChain(file, ks, 0, key);
      return;
    }
    ghost var p := 0;
    ChainNext(file, h, p);
    while bucket.next != -1
      invariant p < |ks| && bucket == file[ks[p]]
      invariant r == None && FindFirst(Gather(file, ks[..p + 1]), key) == None
      invariant bucket.next == -1 <==> p == |ks| - 1
      invariant p < |ks| - 1 ==> bucket.next / SIZE_OF_BUCKET == ks[p + 1]
      decreases |ks| - p
    {
      bucket := file[bucket.next / SIZE_OF_BUCKET];
      p := p + 1;
      ChainNext(file, h, p);
      GatherStep(file, ks, p);
      r := FindInRecords(bucket.records, key);
      if r.Some? {
        FoundOnChain(file, ks, p, key);
        return;
      }
      FindFirstAppend(Gather(file, ks[..p]), bucket.records, key);
    }
    assert ks[..p + 1] == ks;
  }

  /** The chain walk of `delete(id_venta)`: whether a record was removed, and the file it leaves. */
  method DeleteFromFile(f: seq<Bucket>, key: int) returns (found: bool, file: seq<Bucket>)
    requires Linked(f) && N_MAIN_BUCKETS <= |f| && AllCanonical(f)
    ensures (found, file) == Deleted(f, key)
  {
    file := f;
    var h := Hash(key);
    ghost var ks := ChainFrom(f, h);
    var pos := h * SIZE_OF_BUCKET;
    OffsetIndex(h);
    var bucket := file[pos / SIZE_OF_BUCKET];
    var i := IndexInRecords(bucket.records, key);
    if i < |bucket.records| {
      DeleteFromBucket(f, key, 0);
      var nb := Bucket(RemoveAt(bucket.records, i), bucket.next);
      RemoveAtKeeps(bucket.records, i);
      ReadBackKeeps(nb);
      file := file[pos / SIZE_OF_BUCKET := ReadBack(nb)];
      return true, file;
    }
    var prevPos := pos;
    ghost var p := 0;
    ChainNext(f, h, p);
    while bucket.next != -1
      invariant file == f
      invariant p < |ks| && prevPos == Offset(ks[p]) && bucket == f[ks[p]]
      invariant bucket.next == -1 <==> p == |ks| - 1
      invariant p < |ks| - 1 ==> bucket.next == Offset(ks[p + 1]) && bucket.next / SIZE_OF_BUCKET == ks[p + 1]
      invariant forall q :: 0 <= q <= p ==> FindIndex(f[ks[q]].records, key) == |f[ks[q]].records|
      decreases |ks| - p
    {
      prevPos := bucket.next;
      bucket := file[bucket.next / SIZE_OF_BUCKET];
      p := p + 1;
      ChainNext(f, h, p);
      OffsetIndex(ks[p]);
      i := IndexInRecords(bucket.records, key);
      if i < |bucket.records| {
        DeleteFromBucket(f, key, p);
        var nb := Bucket(RemoveAt(bucket.records, i), bucket.next);
        RemoveAtKeeps(bucket.records, i);
        ReadBackKeeps(nb);
        file := file[prevPos / SIZE_OF_BUCKET := ReadBack(nb)];
        return true, file;
      }
    }
    DeleteAbsent(f, key);
    return false, file;
  }

  /** The overflow walk of `scanAll` for main bucket i: the records of its chain in order. */
  method ChainOf(file: seq<Bucket>, i: nat) returns (rs: seq<Record>)
    requires Linked(file) && i < |file|
    ensures rs == ChainRecords(file, i)
  {
    ghost var ks := ChainFrom(file, i);
    var pos := i * SIZE_OF_BUCKET;
    OffsetIndex(i);
    var bucket := file[pos / SIZE_OF_BUCKET];
    rs := bucket.records;
    GatherStep(file, ks, 0);
    assert ks[..0] == [];
    var nextPos := bucket.next;
    ghost var p := 0;
    ChainNext(file, i, p);
    while nextPos != -1
      invariant p < |ks| && nextPos == file[ks[p]].next
      invariant nextPos == -1 <==> p == |ks| - 1
      invariant p < |ks| - 1 ==> nextPos / SIZE_OF_BUCKET == ks[p + 1]
      invariant rs == Gather(file, ks[..p + 1])
      decreases |ks| - p
    {
      var overflow := file[nextPos / SIZE_OF_BUCKET];
      p := p + 1;
      ChainNext(file, i, p);
      GatherStep(file, ks, p);
      rs := rs + overflow.records;
      nextPos := overflow.next;
    }
    assert ks[..p + 1] == ks;
  }

  /** `scanAll`: the records of each main bucket and of its overflow chain, main bucket 0 first. */
  method ScanFile(file: seq<Bucket>) returns (rs: seq<Record>)
    requires Linked(file) && N_MAIN_BUCKETS <= |file|
    ensures rs == Scan(file)
  {
    rs := [];
    for i := 0 to N_MAIN_BUCKETS
      invariant rs == Flatten(Chains(file)[..i])
    {
      var chain := ChainOf(file, i);
      FlattenStep(Chains(file), i + 1);
      rs := rs + chain;
    }
    assert Chains(file)[..N_MAIN_BUCKETS] == Chains(file);
  }

  // ---------------------------------------------------------------------------
  // The hash file object

  class StaticHashing {
    /** The buckets of the file in file order. */
    var file: seq<Bucket>
    /** The main bucket whose chain each bucket is on. */
    ghost var owner: seq<nat>

    ghost predicate Valid()
      reads this
    {
      Inv(file, owner) && AllCanonical(file)
    }

    /**
     * `StaticHashing(file)`: a file too short to hold the main buckets gets
     * N_MAIN_BUCKETS empty buckets written from offset 0; a longer one is used
     * as it is, and must then be a hash file.
     */
    constructor (existing: seq<Bucket>, ghost existingOwner: seq<nat>)
      requires N_MAIN_BUCKETS <= |existing| ==> Inv(existing, existingOwner) && AllCanonical(existing)
      ensures Valid()
      ensures file == if |existing| < N_MAIN_BUCKETS then EmptyMainBuckets() else existing
    {
      if |existing| < N_MAIN_BUCKETS {
        var written: seq<Bucket> := [];
        for i := 0 to N_MAIN_BUCKETS
          invariant written == EmptyMainBuckets()[..i]
        {
          ReadBackKeeps(Bucket([], -1));
          written := written + [ReadBack(Bucket([], -1))];
        }
        file := written;
        owner := MainOwners();
        EmptyMainBucketsInv();
      } else {
        file := existing;
        owner := existingOwner;
      }
    }

    /**
     * `add(record)`: the record goes into the first bucket of its key's chain
     * with a free slot; when the chain is full, a new bucket holding it is
     * written at the end of the file and the chain's last bucket is re-written
     * to point to it. The file stays a hash file.
     */
    method Add(r: Record)
      requires Valid()
      modifies this
      ensures Valid()
      ensures file == Added(old(file), Normalize(r))
    {
      RecordRoundTrip(r);
      NormalizeCanonical(r);
      AddedInv(file, owner, Normalize(r));
      AddedCanonical(file, Normalize(r));
      owner := AddedOwner(file, owner, Normalize(r));
      file := AddToFile(file, r);
    }

    /** `search(id_venta)`: the first record with the key on the key's chain, or None. */
    method Search(key: int) returns (r: Option<Record>)
      requires Valid()
      ensures r == Lookup(file, key)
    {
      r := SearchFile(file, key);
    }

    /**
     * `delete(id_venta)`: removes the first record with the key from the first
     * bucket of the key's chain holding one, re-writes that bucket only and
     * reports whether a record was removed. Emptied buckets stay linked.
     */
    method Delete(key: int) returns (found: bool)
      requires Valid()
      modifies this
      ensures Valid()
      ensures found == Deleted(old(file), key).0 && file == Deleted(old(file), key).1
    {
      DeletedInv(file, owner, key);
      DeletedCanonical(file, key);
      found, file := DeleteFromFile(file, key);
    }

    /** `scanAll`: every record of the file, chain by chain. */
    method ScanAll() returns (rs: seq<Record>)
      requires Valid()
      ensures rs == Scan(file)
    {
      rs := ScanFile(file);
    }
  }

  lemma RemoveAtKeeps(rs: seq<Record>, i: nat)
    requires i < |rs|
    ensures forall y :: y in RemoveAt(rs, i) ==> y in rs
  {
    forall y | y in RemoveAt(rs, i)
      ensures y in rs
    {
      var j :| 0 <= j < |rs| - 1 && RemoveAt(rs, i)[j] == y;
      if j < i {
        assert rs[j] == y;
      } else {
        assert rs[j + 1] == y;
      }
    }
  }

  /** A match in the p-th bucket of ks, after none in the buckets before it, is what search over ks finds. */
  lemma FoundOnChain(f: seq<Bucket>, ks: seq<nat>, p: nat, key: int)
    requires InFile(f, ks) && p < |ks|
    requires FindFirst(Gather(f, ks[..p]), key) == None
    requires FindFirst(f[ks[p]].records, key).Some?
    ensures FindFirst(Gather(f, ks), key) == FindFirst(f[ks[p]].records, key)
  {
    GatherSplit(f, ks, p);
    var a, b, c := Gather(f, ks[..p]), f[ks[p]].records, Gather(f, ks[p + 1..]);
    FindFirstAppend(a, b, key);
    FindFirstAppend(a + b, c, key);
  }
}
