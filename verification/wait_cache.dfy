/** `Helpers.GetWaitForSeconds` and its process-wide `WaitCache` dictionary.
    The cache is passed and returned explicitly. Its key (the duration) is an
    opaque type compared by equality, and the descriptor that
    `new WaitForSeconds(time)` would allocate is supplied by the caller as
    `created`. */
module WaitCache {
  import opened Wrappers

  /** The cache after a call, and the value the call returns (`None` for the
      `null` default of the `out` variable). */
  datatype Lookup<K, D> = Lookup(cache: map<K, D>, wait: Option<D>)

  /** One call: the requested duration and the descriptor `new WaitForSeconds(time)`
      would allocate. */
  datatype Call<K, D> = Call(time: K, created: D)

  /** The cache operation as written: a miss returns the default and stores
      nothing; a hit replaces the entry with a created descriptor and returns it. */
  function GetWaitForSeconds<K, D>(cache: map<K, D>, time: K, created: D): (r: Lookup<K, D>)
    ensures r.cache.Keys == cache.Keys
    ensures r.wait.Some? <==> time in cache
    ensures r.wait.Some? ==> r.wait.value == created && r.cache[time] == created
    ensures r.wait.None? ==> r.cache == cache
    ensures forall k :: k in cache && k != time ==> r.cache[k] == cache[k]
  {
    if time !in cache then Lookup(cache, None)
    else
      var updated := cache[time := created];
      Lookup(updated, Some(updated[time]))
  }

  /** The cache after a sequence of calls, and what each call returned. */
  datatype Trace<K, D> = Trace(cache: map<K, D>, results: seq<Option<D>>)

  function Run<K, D>(cache: map<K, D>, calls: seq<Call<K, D>>): (r: Trace<K, D>)
    ensures |r.results| == |calls|
    ensures forall i :: 0 <= i < |calls| && r.results[i].Some? ==> r.results[i].value == calls[i].created
    decreases |calls|
  {
    if calls == [] then Trace(cache, [])
    else
      var step := GetWaitForSeconds(cache, calls[0].time, calls[0].created);
      var rest := Run(step.cache, calls[1..]);
      Trace(rest.cache, [step.wait] + rest.results)
  }

  /** No sequence of calls ever adds or removes a key, and a call returns a
      descriptor exactly when its duration was already a key. */
  lemma {:induction false} RunKeepsKeys<K, D>(cache: map<K, D>, calls: seq<Call<K, D>>)
    ensures Run(cache, calls).cache.Keys == cache.Keys
    ensures |Run(cache, calls).results| == |calls|
    ensures forall i :: 0 <= i < |calls| ==>
              (Run(cache, calls).results[i].Some? <==> calls[i].time in cache)
    decreases |calls|
  {
    if calls != [] {
      var step := GetWaitForSeconds(cache, calls[0].time, calls[0].created);
      RunKeepsKeys(step.cache, calls[1..]);
      var t := Run(cache, calls);
      forall i | 0 <= i < |calls|
        ensures t.results[i].Some? <==> calls[i].time in cache
      {
        if i > 0 {
          assert calls[1..][i - 1] == calls[i];
        }
      }
    }
  }

  /** Starting from the empty dictionary the cache stays empty and every call
      returns `null`. */
  lemma {:induction false} FromEmptyNeverCaches<K, D>(calls: seq<Call<K, D>>)
    ensures Run(map[], calls).cache == map[]
    ensures |Run(map[], calls).results| == |calls|
    ensures forall i :: 0 <= i < |calls| ==> Run(map[], calls).results[i] == None
  {
    RunKeepsKeys(map[], calls);
  }

  // ---------------------------------------------------------------------------
  // The memoising behaviour the cache is meant to have

  datatype MemoLookup<K, D> = MemoLookup(cache: map<K, D>, wait: D)

  /** A hit returns the stored descriptor untouched; a miss stores the created
      descriptor and returns it. */
  function GetWaitForSecondsMemo<K, D>(cache: map<K, D>, time: K, created: D): (r: MemoLookup<K, D>)
    ensures r.cache.Keys == cache.Keys + {time}
    ensures time in r.cache && r.cache[time] == r.wait
    ensures time in cache ==> r.wait == cache[time]
    ensures time !in cache ==> r.wait == created
    ensures forall k :: k in cache ==> r.cache[k] == cache[k]
  {
    if time in cache then MemoLookup(cache, cache[time])
    else MemoLookup(cache[time := created], created)
  }

  datatype MemoTrace<K, D> = MemoTrace(cache: map<K, D>, results: seq<D>)

  function RunMemo<K, D>(cache: map<K, D>, calls: seq<Call<K, D>>): (r: MemoTrace<K, D>)
    ensures |r.results| == |calls|
    ensures r.cache.Keys == cache.Keys + set i | 0 <= i < |calls| :: calls[i].time
    decreases |calls|
  {
    if calls == [] then MemoTrace(cache, [])
    else
      var step := GetWaitForSecondsMemo(cache, calls[0].time, calls[0].created);
      var rest := RunMemo(step.cache, calls[1..]);
      MemoTrace(rest.cache, [step.wait] + rest.results)
  }

  /** Entries are never changed once stored, and every call's result is the
      entry its duration holds at the end. */
  lemma {:induction false} RunMemoConsistent<K, D>(cache: map<K, D>, calls: seq<Call<K, D>>)
    ensures |RunMemo(cache, calls).results| == |calls|
    ensures forall k :: k in cache ==> k in RunMemo(cache, calls).cache && RunMemo(cache, calls).cache[k] == cache[k]
    ensures forall i :: 0 <= i < |calls| ==>
              calls[i].time in RunMemo(cache, calls).cache
              && RunMemo(cache, calls).cache[calls[i].time] == RunMemo(cache, calls).results[i]
    decreases |calls|
  {
    if calls != [] {
      var step := GetWaitForSecondsMemo(cache, calls[0].time, calls[0].created);
      RunMemoConsistent(step.cache, calls[1..]);
      var t := RunMemo(cache, calls);
      forall i | 0 <= i < |calls|
        ensures calls[i].time in t.cache && t.cache[calls[i].time] == t.results[i]
      {
        if i > 0 {
          assert calls[1..][i - 1] == calls[i];
        }
      }
    }
  }

  /** The first request for a duration the cache does not hold gets the
      descriptor created for it. */
  lemma {:induction false} RunMemoFirstRequest<K, D>(cache: map<K, D>, calls: seq<Call<K, D>>)
    ensures forall i :: 0 <= i < |calls| && calls[i].time !in cache && FirstRequest(calls, i) ==>
              RunMemo(cache, calls).results[i] == calls[i].created
    decreases |calls|
  {
    if calls != [] {
      var step := GetWaitForSecondsMemo(cache, calls[0].time, calls[0].created);
      RunMemoFirstRequest(step.cache, calls[1..]);
      var t := RunMemo(cache, calls);
      forall i | 0 <= i < |calls| && calls[i].time !in cache && FirstRequest(calls, i)
        ensures t.results[i] == calls[i].created
      {
        if i > 0 {
          assert calls[1..][i - 1] == calls[i];
          assert calls[i].time != calls[0].time;
          forall j | 0 <= j < i - 1
            ensures calls[1..][j].time != calls[1..][i - 1].time
          {
            assert calls[1..][j] == calls[j + 1];
          }
          assert FirstRequest(calls[1..], i - 1);
        }
      }
    }
  }

  /** No call before `i` asks for the duration call `i` asks for. */
  ghost predicate FirstRequest<K, D>(calls: seq<Call<K, D>>, i: int)
    requires 0 <= i < |calls|
  {
    forall j :: 0 <= j < i ==> calls[j].time != calls[i].time
  }

  /** Repeated requests for the same duration get the same descriptor, the
      one created by the first request when the cache did not hold it. */
  lemma RunMemoIdempotent<K, D>(cache: map<K, D>, calls: seq<Call<K, D>>)
    ensures |RunMemo(cache, calls).results| == |calls|
    ensures forall i, j :: 0 <= i < |calls| && 0 <= j < |calls| && calls[i].time == calls[j].time ==>
              RunMemo(cache, calls).results[i] == RunMemo(cache, calls).results[j]
    ensures forall i, j ::
              (0 <= i < |calls| && 0 <= j < |calls| && calls[i].time == calls[j].time
               && calls[i].time !in cache && FirstRequest(calls, i)) ==>
              RunMemo(cache, calls).results[j] == calls[i].created
  {
    RunMemoConsistent(cache, calls);
    RunMemoFirstRequest(cache, calls);
  }

  /** Two calls for the same duration on the empty cache: as written both
      return `null`, whereas the memoising cache returns the first call's
      descriptor twice. */
  lemma SecondRequestDiffers<K, D>(time: K, first: D, second: D)
    ensures Run(map[], [Call(time, first), Call(time, second)]).results == [None, None]
    ensures RunMemo(map[], [Call(time, first), Call(time, second)]).results == [first, first]
  {
    var calls := [Call(time, first), Call(time, second)];
    var last := calls[1..];
    assert last == [Call(time, second)] && last[1..] == [];
    assert Run(map[], last).results == [None];
    assert Run(map[], calls).results == [None] + Run(map[], last).results;
    var m := map[time := first];
    assert RunMemo(m, last).results == [first];
    assert RunMemo(map[], calls).results == [first] + RunMemo(m, last).results;
  }
}
