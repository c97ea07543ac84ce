/** The request-count gate of FilterRequest as pure functions: one admission
    check against the request-count cache, and a run of successive checks.
    The class in filter.dfy is proved against these functions. */
module RequestGate {

  /** The one cache key the filter ever reads or writes. */
  const KeyName: string := "requests"

  /** MAX_REQUESTS_PER_HOUR as the filter declares it. */
  const DefaultMaxRequestsPerHour: nat := 3

  /** The contents of the request-count cache: key to count. A key that is
      absent (never loaded, or evicted after an hour without access) loads as 0. */
  type Store = map<string, nat>

  /** What `requestCounts.get(KEY_NAME)` yields when the load succeeds:
      the cached count, or 0 from the cache loader. */
  function Read(store: Store): nat
  {
    if KeyName in store then store[KeyName] else 0
  }

  /** The cache with the bucket evicted, as idle expiry leaves it. */
  function Evict(store: Store): Store
  {
    store - {KeyName}
  }

  /** The result of one check and the cache after it. */
  datatype Outcome = Outcome(exceeded: bool, store: Store)

  /** One call of isMaximumRequestsPerHourExceeded. When the load throws,
      the check fails open and the cache is left alone; otherwise the count
      read decides, and count + 1 is written back whatever the decision. */
  function Check(store: Store, max: nat, loadFails: bool): Outcome
  {
    if loadFails then Outcome(false, store)
    else
      var requests := Read(store);
      Outcome(requests >= max, store[KeyName := requests + 1])
  }

  /** The decisions of successive checks; fails[i] says whether the load of
      the i-th check throws. */
  function Decisions(store: Store, max: nat, fails: seq<bool>): (r: seq<bool>)
    ensures |r| == |fails|
    decreases |fails|
  {
    if fails == [] then []
    else
      var o := Check(store, max, fails[0]);
      [o.exceeded] + Decisions(o.store, max, fails[1..])
  }

  /** The cache after successive checks. */
  function After(store: Store, max: nat, fails: seq<bool>): Store
    decreases |fails|
  {
    if fails == [] then store
    else After(Check(store, max, fails[0]).store, max, fails[1..])
  }

  /** How many of the loads succeed. */
  function Successes(fails: seq<bool>): nat
    decreases |fails|
  {
    if fails == [] then 0
    else (if fails[0] then 0 else 1) + Successes(fails[1..])
  }

  /** A run of n checks whose loads all succeed. */
  function AllLoad(n: nat): (fails: seq<bool>)
    ensures |fails| == n && forall i :: 0 <= i < n ==> !fails[i]
  {
    seq(n, _ => false)
  }

  /** One check in full: the decision is "read count >= max" exactly, the
      bucket advances by one on a successful load, a failed load changes
      nothing, and no key other than KeyName is touched. */
  lemma CheckSpec(store: Store, max: nat, loadFails: bool)
    ensures Check(store, max, loadFails).exceeded <==> !loadFails && Read(store) >= max
    ensures loadFails ==> Check(store, max, loadFails).store == store
    ensures !loadFails ==> KeyName in Check(store, max, loadFails).store
    ensures !loadFails ==> Read(Check(store, max, loadFails).store) == Read(store) + 1
    ensures Evict(Check(store, max, loadFails).store) == Evict(store)
  {
  }

  /** Prefix and suffix counts of successful loads add up. */
  lemma {:induction false} SuccessesAppend(a: seq<bool>, b: seq<bool>)
    ensures Successes(a + b) == Successes(a) + Successes(b)
    decreases |a|
  {
    if a == [] {
      assert a + b == b;
    } else {
      assert (a + b)[1..] == a[1..] + b;
      SuccessesAppend(a[1..], b);
    }
  }

  /** Counts of successful loads only grow along a run. */
  lemma SuccessesMonotone(fails: seq<bool>, i: nat, j: nat)
    requires i <= j <= |fails|
    ensures Successes(fails[..i]) <= Successes(fails[..j])
  {
    assert fails[..j] == fails[..i] + fails[i..j];
    SuccessesAppend(fails[..i], fails[i..j]);
  }

  /** Every successful load adds exactly one to the bucket; failed loads add
      nothing. Rejected calls are counted too. */
  lemma {:induction false} CountAfter(store: Store, max: nat, fails: seq<bool>)
    ensures Read(After(store, max, fails)) == Read(store) + Successes(fails)
    decreases |fails|
  {
    if fails != [] {
      CheckSpec(store, max, fails[0]);
      CountAfter(Check(store, max, fails[0]).store, max, fails[1..]);
    }
  }

  /** Only the bucket under KeyName is ever written. */
  lemma {:induction false} OnlyRequestsKey(store: Store, max: nat, fails: seq<bool>)
    ensures Evict(After(store, max, fails)) == Evict(store)
    decreases |fails|
  {
    if fails != [] {
      CheckSpec(store, max, fails[0]);
      OnlyRequestsKey(Check(store, max, fails[0]).store, max, fails[1..]);
    }
  }

  /** The i-th decision of a run: rejected exactly when its own load succeeds
      and the bucket, which started at Read(store) and has grown by one per
      earlier successful load, has reached max. */
  lemma {:induction false} DecisionAt(store: Store, max: nat, fails: seq<bool>, i: nat)
    requires i < |fails|
    ensures Decisions(store, max, fails)[i]
        <==> !fails[i] && Read(store) + Successes(fails[..i]) >= max
    decreases i
  {
    var o := Check(store, max, fails[0]);
    CheckSpec(store, max, fails[0]);
    if i > 0 {
      DecisionAt(o.store, max, fails[1..], i - 1);
      assert fails[1..][i - 1] == fails[i];
      assert fails[..i] == [fails[0]] + fails[1..][..i - 1];
      SuccessesAppend([fails[0]], fails[1..][..i - 1]);
      assert Successes([fails[0]]) == (if fails[0] then 0 else 1) by {
        assert [fails[0]][1..] == [];
      }
    }
  }

  /** From an empty or evicted bucket with every load succeeding, calls
      1..max are admitted and call max + 1 is the first one rejected. */
  lemma FreshBucket(store: Store, max: nat, n: nat, i: nat)
    requires KeyName !in store
    requires i < n
    ensures Decisions(store, max, AllLoad(n))[i] <==> i >= max
  {
    var fails := AllLoad(n);
    DecisionAt(store, max, fails, i);
    assert Successes(fails[..i]) == i by {
      AllSucceed(fails[..i]);
    }
  }

  /** A run of successful loads counts every call. */
  lemma {:induction false} AllSucceed(fails: seq<bool>)
    requires forall k :: 0 <= k < |fails| ==> !fails[k]
    ensures Successes(fails) == |fails|
    decreases |fails|
  {
    if fails != [] {
      AllSucceed(fails[1..]);
    }
  }

  /** Once a call is rejected, every later call whose load succeeds is
      rejected as well: nothing but eviction lowers the bucket. */
  lemma RejectionPersists(store: Store, max: nat, fails: seq<bool>, i: nat, j: nat)
    requires i < j < |fails|
    requires Decisions(store, max, fails)[i]
    requires !fails[j]
    ensures Decisions(store, max, fails)[j]
  {
    DecisionAt(store, max, fails, i);
    DecisionAt(store, max, fails, j);
    SuccessesMonotone(fails, i, j);
  }

  /** Once the bucket is evicted, the next check with a successful load is
      admitted whenever max > 0, whatever the count was. */
  lemma EvictionReopens(store: Store, max: nat)
    requires max > 0
    ensures !Check(Evict(store), max, false).exceeded
    ensures Read(Check(Evict(store), max, false).store) == 1
  {
  }

  /** Extending a run by one check extends its decisions and its cache by
      that check. */
  lemma {:induction false} RunSnoc(store: Store, max: nat, fails: seq<bool>, b: bool)
    ensures Decisions(store, max, fails + [b])
         == Decisions(store, max, fails) + [Check(After(store, max, fails), max, b).exceeded]
    ensures After(store, max, fails + [b]) == Check(After(store, max, fails), max, b).store
    decreases |fails|
  {
    if fails == [] {
      assert fails + [b] == [b];
    } else {
      assert (fails + [b])[1..] == fails[1..] + [b];
      RunSnoc(Check(store, max, fails[0]).store, max, fails[1..], b);
    }
  }
}
