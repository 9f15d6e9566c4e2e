/**
  The per-/16 bookkeeping a dataset keeps in `IPVisualizator-backend/redisdb.py`.
  The Redis hashes become Dafny maps:

  * `records` is the union of the hashes `dataset:<token>:<bucket>`, keyed by the
    integer address (a key lives in the hash of its own bucket);
  * `cache` is the hash `dataset_cache:<token>`, one running total per bucket;
  * `size` is the counter `dataset_size:<token>`.

  Values are exact reals; Redis's text round trip of floats is not modelled.
*/
module DatasetStore {
  import opened Bits
  import opened IpAddr
  import opened Wrappers

  datatype Store = Store(records: map<nat, real>, cache: map<nat, real>, size: int)

  /** The outcome of an operation that writes as it goes: the store as left behind,
      and whether the operation reached its end or raised part way. */
  datatype Effect = Done(store: Store) | Crashed(store: Store)

  // ---------------------------------------------------------------------------
  // Sums over maps

  /** The total of a map's values. */
  ghost function MapSum(m: map<nat, real>): real
    decreases |m|
  {
    if m == map[] then 0.0 else var k :| k in m; m[k] + MapSum(m - {k})
  }

  /** Any key may be taken out first. */
  lemma {:induction false} MapSumRemove(m: map<nat, real>, j: nat)
    requires j in m
    ensures MapSum(m) == m[j] + MapSum(m - {j})
    decreases |m|
  {
    var k :| k in m && MapSum(m) == m[k] + MapSum(m - {k});
    if k != j {
      assert (m - {k}) - {j} == (m - {j}) - {k};
      MapSumRemove(m - {k}, j);
      MapSumRemove(m - {j}, k);
    }
  }

  /** Writing one key changes the total by the difference. */
  lemma MapSumUpdate(m: map<nat, real>, j: nat, v: real)
    ensures MapSum(m[j := v]) == MapSum(m) - (if j in m then m[j] else 0.0) + v
  {
    MapSumRemove(m[j := v], j);
    assert m[j := v] - {j} == m - {j};
    if j in m {
      MapSumRemove(m, j);
    } else {
      assert m - {j} == m;
    }
  }

  /** The stored records of one bucket: the hash `dataset:<token>:<b>`. */
  function BucketOf(records: map<nat, real>, b: nat): (r: map<nat, real>)
    ensures forall ip :: ip in r <==> ip in records && Bucket(ip) == b
  {
    map ip | ip in records && Bucket(ip) == b :: records[ip]
  }

  ghost function BucketSum(records: map<nat, real>, b: nat): real
  {
    MapSum(BucketOf(records, b))
  }

  /** Writing an address changes the total of its own bucket by the difference
      and leaves every other bucket's total alone. */
  lemma BucketSumUpdate(records: map<nat, real>, n: nat, v: real, b: nat)
    ensures BucketSum(records[n := v], b)
         == if b == Bucket(n) then BucketSum(records, b) - (if n in records then records[n] else 0.0) + v
            else BucketSum(records, b)
  {
    if b == Bucket(n) {
      assert BucketOf(records[n := v], b) == BucketOf(records, b)[n := v];
      MapSumUpdate(BucketOf(records, b), n, v);
    } else {
      assert BucketOf(records[n := v], b) == BucketOf(records, b);
    }
  }

  /** Deleting an address takes its value off its own bucket's total only. */
  lemma BucketSumRemove(records: map<nat, real>, n: nat, b: nat)
    requires n in records
    ensures BucketSum(records - {n}, b)
         == if b == Bucket(n) then BucketSum(records, b) - records[n] else BucketSum(records, b)
  {
    if b == Bucket(n) {
      assert BucketOf(records - {n}, b) == BucketOf(records, b) - {n};
      MapSumRemove(BucketOf(records, b), n);
    } else {
      assert BucketOf(records - {n}, b) == BucketOf(records, b);
    }
  }

  /** The bookkeeping invariant: each cached total is the sum of its bucket's
      records, every record's bucket has a total, and the size counts the stored
      addresses. */
  ghost predicate Consistent(st: Store)
  {
    && (forall b :: b in st.cache ==> st.cache[b] == BucketSum(st.records, b))
    && (forall ip :: ip in st.records ==> Bucket(ip) in st.cache)
    && st.size == |st.records|
  }

  // ---------------------------------------------------------------------------
  // set_ip_record, delete_ip_record, update_ip_record

  /** `set_ip_record`: the size counter is bumped for a new address before the
      cached total is read, so a bucket without a total raises after that write. */
  function SetIpRecord(st: Store, n: nat, value: real): (r: Effect)
    ensures r.store.size == st.size + (if n in st.records then 0 else 1)
    ensures r.Done? <==> Bucket(n) in st.cache
    ensures r.Done? ==> r.store.records == st.records[n := value]
    ensures r.Crashed? ==> r.store.records == st.records && r.store.cache == st.cache
  {
    var b := Bucket(n);
    var old_value := if n in st.records then st.records[n] else 0.0;
    var size := if n in st.records then st.size else st.size + 1;
    if b !in st.cache then Crashed(st.(size := size))
    else Done(Store(st.records[n := value], st.cache[b := st.cache[b] - old_value + value], size))
  }

  /** `delete_ip_record`: nothing happens for an absent address; otherwise the
      value comes off its bucket's total, the size drops by one and the record
      goes. A missing total raises before any write. */
  function DeleteIpRecord(st: Store, n: nat): (r: Effect)
    ensures n !in st.records ==> r == Done(st)
    ensures n in st.records && r.Done? ==>
      r.store.records == st.records - {n} && r.store.size == st.size - 1
    ensures r.Crashed? ==> r.store == st
  {
    if n !in st.records then Done(st)
    else
      var b := Bucket(n);
      if b !in st.cache then Crashed(st)
      else Done(Store(st.records - {n}, st.cache[b := st.cache[b] - st.records[n]], st.size - 1))
  }

  /** The three update modes of `update_ip_record`. */
  datatype UpdateMode = Incr | Decr | SetValue

  /** The stored value of an address, 0 when it has none (`get_ip_record`). */
  function StoredValue(st: Store, n: nat): real
  {
    if n in st.records then st.records[n] else 0.0
  }

  /** `update_ip_record`: increment and decrement start from the stored value, or
      from 0 for a new address. */
  function UpdateIpRecord(st: Store, n: nat, value: real, mode: UpdateMode): (r: Effect)
    ensures r.Done? ==> n in r.store.records && r.store.records[n] == match mode
      case Incr => StoredValue(st, n) + value
      case Decr => StoredValue(st, n) - value
      case SetValue => value
  {
    match mode
    case Incr => SetIpRecord(st, n, value + StoredValue(st, n))
    case Decr => SetIpRecord(st, n, StoredValue(st, n) - value)
    case SetValue => SetIpRecord(st, n, value)
  }

  // ---------------------------------------------------------------------------
  // The invariant is kept

  /** Setting an address with a cached bucket keeps the bookkeeping consistent. */
  lemma SetKeepsConsistent(st: Store, n: nat, value: real)
    requires Consistent(st)
    ensures var r := SetIpRecord(st, n, value);
      r.Done? ==> Consistent(r.store)
  {
    var r := SetIpRecord(st, n, value);
    if r.Done? {
      forall b | b in r.store.cache
        ensures r.store.cache[b] == BucketSum(r.store.records, b)
      {
        BucketSumUpdate(st.records, n, value, b);
      }
    }
  }

  /** Deleting an address keeps the bookkeeping consistent. */
  lemma DeleteKeepsConsistent(st: Store, n: nat)
    requires Consistent(st)
    ensures DeleteIpRecord(st, n).Done?
    ensures Consistent(DeleteIpRecord(st, n).store)
  {
    if n in st.records {
      var r := DeleteIpRecord(st, n);
      forall b | b in r.store.cache
        ensures r.store.cache[b] == BucketSum(r.store.records, b)
      {
        BucketSumRemove(st.records, n, b);
      }
      assert (st.records - {n}).Keys == st.records.Keys - {n};
    }
  }

  /** On a consistent store, a set raises exactly when the address's bucket has no
      total, and then the size already counts an address that is not stored. */
  lemma SetCrashLeavesSizeWrong(st: Store, n: nat, value: real)
    requires Consistent(st) && Bucket(n) !in st.cache
    ensures SetIpRecord(st, n, value).Crashed?
    ensures var s := SetIpRecord(st, n, value).store;
      s.size == |s.records| + 1 && !Consistent(s)
  {
  }

  /** Deleting a just-added address undoes the set exactly. */
  lemma DeleteUndoesSet(st: Store, n: nat, value: real)
    requires n !in st.records && Bucket(n) in st.cache
    ensures DeleteIpRecord(SetIpRecord(st, n, value).store, n) == Done(st)
  {
    var s := SetIpRecord(st, n, value).store;
    assert s.records - {n} == st.records;
    assert s.cache[Bucket(n) := s.cache[Bucket(n)] - value] == st.cache;
  }

  /** Setting the same value twice is setting it once. */
  lemma SetIdempotent(st: Store, n: nat, value: real)
    ensures var r := SetIpRecord(st, n, value);
      r.Done? ==> SetIpRecord(r.store, n, value) == r
  {
  }

  // ---------------------------------------------------------------------------
  // create_dataset

  /** The uploaded data: address text and value pairs in the dictionary's order. */
  type Rows = seq<(string, real)>

  /** Every key is accepted by `IP_RE`, as the upload checks, and no key repeats,
      as in a dictionary. */
  predicate ValidRows(ips: Rows)
  {
    && (forall k :: 0 <= k < |ips| ==> DottedQuad(ips[k].0))
    && (forall j, k :: 0 <= j < k < |ips| ==> ips[j].0 != ips[k].0)
  }

  function Address(row: (string, real)): nat
    requires DottedQuad(row.0)
  {
    IpToInt(row.0)
  }

  /** `range(0, 65535)`: the buckets `create_dataset` allocates. */
  const AllocatedBuckets: nat := 65535

  /** The number of /16 networks of the address space. */
  const AllBuckets: nat := 65536

  /** A total of 0 for each of the first `count` buckets. */
  function ZeroCache(count: nat): (c: map<nat, real>)
    ensures forall b: nat :: b in c <==> b < count
    ensures forall b :: b in c ==> c[b] == 0.0
  {
    map b: nat | b < count && Below(b, count) :: 0.0
  }

  /** `b < count` as a function term: the map comprehension above needs one for
      the verifier to instantiate it on. */
  predicate Below(b: nat, count: nat)
  {
    b < count
  }

  /** The total of the values of the rows in bucket b. */
  function RowsTotal(ips: Rows, b: nat): real
    requires ValidRows(ips)
  {
    if ips == [] then 0.0
    else
      var last := ips[|ips| - 1];
      RowsTotal(Init(ips), b) + (if Bucket(Address(last)) == b then last.1 else 0.0)
  }

  /** All rows but the last. */
  function Init(ips: Rows): (r: Rows)
    requires ValidRows(ips) && ips != []
    ensures ValidRows(r) && |r| == |ips| - 1
    ensures forall k :: 0 <= k < |r| ==> r[k] == ips[k]
  {
    ips[..|ips| - 1]
  }

  /** Each address with the value of the last row that folds to it. */
  function LastWins(ips: Rows): (m: map<nat, real>)
    requires ValidRows(ips)
    ensures forall k :: 0 <= k < |ips| ==> Address(ips[k]) in m
  {
    if ips == [] then map[]
    else
      var last := ips[|ips| - 1];
      LastWins(Init(ips))[Address(last) := last.1]
  }

  /** Only uploaded addresses are stored. */
  lemma {:induction false} LastWinsDomain(ips: Rows)
    requires ValidRows(ips)
    ensures forall n :: n in LastWins(ips) ==> exists k :: 0 <= k < |ips| && Address(ips[k]) == n
    decreases |ips|
  {
    if ips != [] {
      LastWinsDomain(Init(ips));
      forall n | n in LastWins(ips)
        ensures exists k :: 0 <= k < |ips| && Address(ips[k]) == n
      {
        if n != Address(ips[|ips| - 1]) {
          assert n in LastWins(Init(ips));
          var k :| 0 <= k < |Init(ips)| && Address(Init(ips)[k]) == n;
          assert Address(ips[k]) == n;
        }
      }
    }
  }

  /** An address holds the value of the last row that folds to it. */
  lemma {:induction false} LastWinsValue(ips: Rows, k: nat)
    requires ValidRows(ips) && k < |ips|
    requires forall j :: k < j < |ips| ==> Address(ips[j]) != Address(ips[k])
    ensures LastWins(ips)[Address(ips[k])] == ips[k].1
    decreases |ips|
  {
    if k < |ips| - 1 {
      LastWinsValue(Init(ips), k);
    }
  }

  /** With distinct addresses, a row's address is not among the earlier ones. */
  lemma LastIsNew(ips: Rows)
    requires ValidRows(ips) && ips != []
    requires forall j, k :: 0 <= j < k < |ips| ==> Address(ips[j]) != Address(ips[k])
    ensures Address(ips[|ips| - 1]) !in LastWins(Init(ips))
  {
    LastWinsDomain(Init(ips));
  }

  /** Every row falls in an allocated bucket. */
  predicate AllAllocated(ips: Rows)
    requires ValidRows(ips)
  {
    forall k :: 0 <= k < |ips| ==> Bucket(Address(ips[k])) < AllocatedBuckets
  }

  /** The loop of `create_dataset`: `dataset_cache[ip_index] += value` raises a
      KeyError for a bucket that was not allocated, before anything is written. */
  function FillTables(ips: Rows): (r: Option<(map<nat, real>, map<nat, real>)>)
    requires ValidRows(ips)
  {
    if ips == [] then Some((ZeroCache(AllocatedBuckets), map[]))
    else
      var last := ips[|ips| - 1];
      match FillTables(Init(ips))
      case None => None
      case Some((cache, records)) =>
        var n := Address(last);
        var b := Bucket(n);
        if b !in cache then None
        else Some((cache[b := cache[b] + last.1], records[n := last.1]))
  }

  /** The loop fails exactly when some row lies outside the allocated buckets. */
  lemma {:induction false} FillTablesFails(ips: Rows)
    requires ValidRows(ips)
    ensures FillTables(ips).Some? <==> AllAllocated(ips)
    ensures FillTables(ips).Some? ==> forall b: nat :: b in FillTables(ips).value.0 <==> b < AllocatedBuckets
    decreases |ips|
  {
    if ips != [] {
      FillTablesFails(Init(ips));
    }
  }

  /** After the loop each allocated bucket holds the sum of the values uploaded
      into it and each address its last value. */
  lemma {:induction false} FillTablesContents(ips: Rows)
    requires ValidRows(ips)
    requires FillTables(ips).Some?
    ensures FillTables(ips).value.1 == LastWins(ips)
    ensures forall b :: b in FillTables(ips).value.0 ==> FillTables(ips).value.0[b] == RowsTotal(ips, b)
    decreases |ips|
  {
    if ips != [] {
      FillTablesContents(Init(ips));
    }
  }

  /** `create_dataset` as written: the size is the number of keys uploaded. */
  function CreateDataset(ips: Rows): Option<Store>
    requires ValidRows(ips)
  {
    match FillTables(ips)
    case None => None
    case Some((cache, records)) => Some(Store(records, cache, |ips|))
  }

  /** What `create_dataset` stores: it fails exactly when some address lies in
      the unallocated bucket 65535; otherwise each allocated bucket's total is the
      sum of the values uploaded into it and each address keeps its last value. */
  lemma CreateDatasetSpec(ips: Rows)
    requires ValidRows(ips)
    ensures CreateDataset(ips).Some? <==> AllAllocated(ips)
    ensures CreateDataset(ips).Some? ==>
      var st := CreateDataset(ips).value;
      && st.size == |ips|
      && st.records == LastWins(ips)
      && (forall b: nat :: b in st.cache <==> b < AllocatedBuckets)
      && (forall b :: b in st.cache ==> st.cache[b] == RowsTotal(ips, b))
  {
    FillTablesFails(ips);
    if FillTables(ips).Some? {
      FillTablesContents(ips);
    }
  }

  /** With distinct addresses the running totals are the bucket sums. */
  lemma {:induction false} DistinctRowsTotal(ips: Rows, b: nat)
    requires ValidRows(ips)
    requires forall j, k :: 0 <= j < k < |ips| ==> Address(ips[j]) != Address(ips[k])
    ensures BucketSum(LastWins(ips), b) == RowsTotal(ips, b)
    decreases |ips|
  {
    if ips == [] {
      assert BucketOf(map[], b) == map[];
    } else {
      var pre := Init(ips);
      DistinctRowsTotal(pre, b);
      var last := ips[|ips| - 1];
      LastIsNew(ips);
      BucketSumUpdate(LastWins(pre), Address(last), last.1, b);
    }
  }

  /** Distinct keys fold to distinct addresses only when no two are the same address
      written differently; then `create_dataset` leaves a consistent store. */
  lemma CreateConsistentWhenDistinct(ips: Rows)
    requires ValidRows(ips)
    requires forall j, k :: 0 <= j < k < |ips| ==> Address(ips[j]) != Address(ips[k])
    ensures CreateDataset(ips).Some? ==> Consistent(CreateDataset(ips).value)
  {
    CreateDatasetSpec(ips);
    if CreateDataset(ips).Some? {
      var st := CreateDataset(ips).value;
      forall b | b in st.cache
        ensures st.cache[b] == BucketSum(st.records, b)
      {
        DistinctRowsTotal(ips, b);
      }
      RecordsAllocated(ips);
      DistinctCount(ips);
    }
  }

  /** Every stored address of a successful upload lies in an allocated bucket. */
  lemma RecordsAllocated(ips: Rows)
    requires ValidRows(ips) && AllAllocated(ips)
    ensures forall ip :: ip in LastWins(ips) ==> Bucket(ip) < AllocatedBuckets
  {
    LastWinsDomain(ips);
  }

  /** Distinct addresses make as many records as rows. */
  lemma {:induction false} DistinctCount(ips: Rows)
    requires ValidRows(ips)
    requires forall j, k :: 0 <= j < k < |ips| ==> Address(ips[j]) != Address(ips[k])
    ensures |LastWins(ips)| == |ips|
    decreases |ips|
  {
    if ips != [] {
      DistinctCount(Init(ips));
      LastIsNew(ips);
    }
  }

  /** Two spellings of one address in one upload: the stored size counts two rows
      while one record is kept, and the bucket total adds both values while the
      record holds the second. */
  lemma {:induction false} TwoSpellingsUpload(t1: string, t2: string, v1: real, v2: real)
    requires DottedQuad(t1) && DottedQuad(t2) && t1 != t2
    requires IpToInt(t1) == IpToInt(t2) && Bucket(IpToInt(t1)) < AllocatedBuckets
    ensures var ips := [(t1, v1), (t2, v2)];
      var n := IpToInt(t1);
      && ValidRows(ips)
      && CreateDataset(ips).Some?
      && CreateDataset(ips).value.size == 2
      && CreateDataset(ips).value.records == map[n := v2]
      && CreateDataset(ips).value.cache[Bucket(n)] == v1 + v2
  {
    var ips := [(t1, v1), (t2, v2)];
    var n := IpToInt(t1);
    assert ValidRows(ips);
    assert Address(ips[0]) == n && Address(ips[1]) == n;
    CreateDatasetSpec(ips);
    var first := Init(ips);
    assert first == [ips[0]];
    assert Init(first) == [];
    assert LastWins(first) == map[n := v1];
    assert LastWins(ips) == LastWins(first)[n := v2];
    assert RowsTotal(first, Bucket(n)) == v1;
    assert RowsTotal(ips, Bucket(n)) == RowsTotal(first, Bucket(n)) + v2;
  }

  /** Such a store is inconsistent whenever the first value is not zero. */
  lemma TwoSpellingsInconsistent(st: Store, n: nat, v1: real, v2: real)
    requires st.size == 2 && st.records == map[n := v2]
    requires Bucket(n) in st.cache && st.cache[Bucket(n)] == v1 + v2
    requires v1 != 0.0
    ensures !Consistent(st)
  {
    assert |st.records| == 1;
  }

  /** The upload "1.2.3.4" = 1, "01.2.3.4" = 2 has two distinct keys for one
      address: the stored size is 2 with one record, and the bucket total is 3
      while the record holds 2. */
  lemma LeadingZeroUploadInconsistent()
    ensures var ips := [("1.2.3.4", 1.0), ("01.2.3.4", 2.0)];
      && ValidRows(ips)
      && CreateDataset(ips).Some?
      && CreateDataset(ips).value.size == 2
      && CreateDataset(ips).value.records == map[16909060 := 2.0]
      && 258 in CreateDataset(ips).value.cache
      && CreateDataset(ips).value.cache[258] == 3.0
      && !Consistent(CreateDataset(ips).value)
  {
    LeadingZerosCollide();
    assert "1.2.3.4" != "01.2.3.4" by { assert |"1.2.3.4"| != |"01.2.3.4"|; }
    DivUnique(16909060, 65536, 258, 772);
    TwoSpellingsUpload("1.2.3.4", "01.2.3.4", 1.0, 2.0);
    var ips := [("1.2.3.4", 1.0), ("01.2.3.4", 2.0)];
    TwoSpellingsInconsistent(CreateDataset(ips).value, 16909060, 1.0, 2.0);
  }

  /** An upload holding 255.255.0.1 fails: its bucket 65535 was never allocated. */
  lemma TopBucketUploadFails()
    ensures ValidRows([("255.255.0.1", 1.0)])
    ensures CreateDataset([("255.255.0.1", 1.0)]).None?
  {
    TopBucketAddress();
    var ips := [("255.255.0.1", 1.0)];
    assert ips[0].0 == "255.255.0.1";
    assert ValidRows(ips);
    assert Bucket(Address(ips[0])) == 65535;
    assert !AllAllocated(ips);
    CreateDatasetSpec(ips);
  }

  lemma TopBucketAddress()
    ensures DottedQuad("255.255.0.1") && Bucket(IpToInt("255.255.0.1")) == 65535
  {
    QuadAddress("255", "255", "0", "1");
    assert "255" + "." + "255" + "." + "0" + "." + "1" == "255.255.0.1";
    DecimalShort("255");
  }

  /** A dataset uploaded as written has no total for bucket 65535, so setting an
      address of 255.255.0.0/16 raises after counting it in the size. */
  lemma TopBucketSetCrashes(ips: Rows, value: real)
    requires ValidRows(ips) && CreateDataset(ips).Some?
    ensures var st := CreateDataset(ips).value;
      && SetIpRecord(st, 0xFFFF0001, value).Crashed?
      && SetIpRecord(st, 0xFFFF0001, value).store.size == st.size + 1
  {
    CreateDatasetSpec(ips);
    var st := CreateDataset(ips).value;
    assert Bucket(0xFFFF0001) == 65535;
    LastWinsDomain(ips);
    assert 0xFFFF0001 !in st.records;
  }

  // ---------------------------------------------------------------------------
  // create_dataset corrected

  lemma AddressBucket(row: (string, real))
    requires DottedQuad(row.0)
    ensures Bucket(Address(row)) < AllBuckets
  {
    IpToIntBound(row.0);
  }

  /** The empty dataset with a zero total for every /16 network. */
  function EmptyStore(): (st: Store)
    ensures forall b: nat :: b in st.cache <==> b < AllBuckets
  {
    Store(map[], ZeroCache(AllBuckets), 0)
  }

  /** `create_dataset` with all 65536 buckets allocated and every row stored as
      `set_ip_record` stores it, so that a second spelling of an address replaces
      the first in the total and in the size alike. */
  function CreateDatasetFixed(ips: Rows): (st: Store)
    requires ValidRows(ips)
    ensures forall b: nat :: b in st.cache <==> b < AllBuckets
    ensures st.records == LastWins(ips)
  {
    if ips == [] then EmptyStore()
    else
      var last := ips[|ips| - 1];
      var pre := CreateDatasetFixed(Init(ips));
      var n := Address(last);
      AddressBucket(last);
      var r := SetIpRecord(pre, n, last.1);
      assert r.store.cache.Keys == pre.cache.Keys;
      assert r.store.records == LastWins(Init(ips))[n := last.1];
      r.store
  }

  /** The corrected upload always succeeds and always leaves a consistent store. */
  lemma {:induction false} CreateDatasetFixedConsistent(ips: Rows)
    requires ValidRows(ips)
    ensures Consistent(CreateDatasetFixed(ips))
    decreases |ips|
  {
    if ips == [] {
      forall b | b in EmptyStore().cache
        ensures EmptyStore().cache[b] == BucketSum(map[], b)
      {
        assert BucketOf(map[], b) == map[];
      }
    } else {
      var pre := Init(ips);
      CreateDatasetFixedConsistent(pre);
      var last := ips[|ips| - 1];
      IpToIntBound(last.0);
      SetKeepsConsistent(CreateDatasetFixed(pre), Address(last), last.1);
    }
  }

  /** Every address below 2^32 has a total in the corrected store, so setting
      it never raises. */
  lemma FixedStoreAcceptsEveryAddress(ips: Rows, n: nat, value: real)
    requires ValidRows(ips) && n < Pow2(32)
    ensures SetIpRecord(CreateDatasetFixed(ips), n, value).Done?
  {
    Pow2Value32();
    DivBound(n, 65536, 65536);
  }
}
