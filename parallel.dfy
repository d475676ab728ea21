/**
 * The parallel operators with the goroutines taken out. Every operator
 * chunks the values into at most `cc` partitions, runs one worker per
 * partition and aggregates the workers' slots in slot order. Each worker
 * runs to completion in its turn; the turns follow `schedule`, an arbitrary
 * permutation of the partition indices, so every contract below holds
 * whatever order the workers run in. The concurrency factor `cc` is a
 * parameter (Go's package variable `cc`, set by SetConcurrency without checks).
 */
module Parallel {
  import opened Seqs
  import opened SliceUtils
  import opened Enumerator
  import opened Sequential

  /** What asParallel builds: the partitions and the total length. */
  datatype ParallelEnumerator<V> = ParallelEnumerator(partitions: seq<seq<V>>, length: nat)

  /** `order` lists every index below n exactly once: one turn per worker. */
  ghost predicate IsSchedule(order: seq<nat>, n: nat)
  {
    && |order| == n
    && (forall j :: 0 <= j < |order| ==> order[j] < n)
    && (forall i, j :: 0 <= i < j < |order| ==> order[i] != order[j])
    && (forall w :: 0 <= w < n ==> w in order)
  }

  /** The identity order is a schedule, so every input has at least one. */
  lemma IdentitySchedule(n: nat)
    ensures IsSchedule(seq(n, i requires 0 <= i < n => i as nat), n)
  {
    var order := seq(n, i requires 0 <= i < n => i as nat);
    forall w | 0 <= w < n ensures w in order {
      assert order[w] == w;
    }
  }

  /** The entries of g taken in the order `order`. */
  ghost function Permute<T>(g: seq<T>, order: seq<nat>): (r: seq<T>)
    requires forall j :: 0 <= j < |order| ==> order[j] < |g|
    ensures |r| == |order|
  {
    seq(|order|, j requires 0 <= j < |order| => g[order[j]])
  }

  /** Taking out the turn of the last worker leaves a schedule of the others. */
  lemma ScheduleDropLast(order: seq<nat>, n: nat) returns (p: nat)
    requires n > 0 && IsSchedule(order, n)
    ensures p < |order| && order[p] == n - 1
    ensures IsSchedule(RemoveIndex(order, p), n - 1)
  {
    assert n - 1 in order;
    p :| 0 <= p < |order| && order[p] == n - 1;
    var rest := RemoveIndex(order, p);
    forall j | 0 <= j < |rest| ensures rest[j] < n - 1 {
      if j < p {
        assert rest[j] == order[j] != order[p];
      } else {
        assert rest[j] == order[j + 1] != order[p];
      }
    }
    forall i, j | 0 <= i < j < |rest| ensures rest[i] != rest[j] {
      var i', j' := if i < p then i else i + 1, if j < p then j else j + 1;
      assert rest[i] == order[i'] && rest[j] == order[j'] && i' < j';
    }
    forall w | 0 <= w < n - 1 ensures w in rest {
      assert w in order;
      var q :| 0 <= q < |order| && order[q] == w;
      assert q != p;
      if q < p {
        assert rest[q] == w;
      } else {
        assert rest[q - 1] == w;
      }
    }
  }

  /** Splitting a permuted sequence at the last worker's turn. */
  lemma PermuteSplit<T>(g: seq<T>, order: seq<nat>, p: nat)
    requires |g| > 0 && IsSchedule(order, |g|) && p < |order| && order[p] == |g| - 1
    requires IsSchedule(RemoveIndex(order, p), |g| - 1)
    ensures Permute(g, order) == Permute(g, order[..p]) + [g[|g| - 1]] + Permute(g, order[p + 1..])
    ensures Permute(g[..|g| - 1], RemoveIndex(order, p)) == Permute(g, order[..p]) + Permute(g, order[p + 1..])
  {
  }

  /** Adding up per-worker values in any schedule gives the slot-order sum. */
  lemma {:induction false} SumPermute(g: seq<int>, order: seq<nat>)
    requires IsSchedule(order, |g|)
    ensures SumOf(Permute(g, order)) == SumOf(g)
  {
    var n := |g|;
    if n == 0 {
      assert Permute(g, order) == [];
    } else {
      var p := ScheduleDropLast(order, n);
      var rest := RemoveIndex(order, p);
      SumPermute(g[..n - 1], rest);
      PermuteSplit(g, order, p);
      var a, b := Permute(g, order[..p]), Permute(g, order[p + 1..]);
      SumOfConcat(a + [g[n - 1]], b);
      SumOfConcat(a, [g[n - 1]]);
      SumOfConcat(a, b);
      assert [g[n - 1]][..0] == [];
    }
  }

  /** Logging every worker's partition in any schedule gives the elements of all partitions. */
  lemma {:induction false} BagPermute<T>(ps: seq<seq<T>>, order: seq<nat>)
    requires IsSchedule(order, |ps|)
    ensures multiset(Flatten(Permute(ps, order))) == multiset(Flatten(ps))
  {
    var n := |ps|;
    if n == 0 {
      assert Permute(ps, order) == [];
    } else {
      var p := ScheduleDropLast(order, n);
      var rest := RemoveIndex(order, p);
      BagPermute(ps[..n - 1], rest);
      PermuteSplit(ps, order, p);
      var a, b := Permute(ps, order[..p]), Permute(ps, order[p + 1..]);
      FlattenConcat(a + [ps[n - 1]], b);
      FlattenConcat(a, [ps[n - 1]]);
      FlattenConcat(a, b);
      assert [ps[n - 1]][..0] == [];
    }
  }

  /** Every element of s satisfies f. */
  ghost predicate AllOf<V>(s: seq<V>, f: V -> bool)
  {
    forall i :: 0 <= i < |s| ==> f(s[i])
  }

  /** Some element of s satisfies f. */
  ghost predicate AnyOf<V>(s: seq<V>, f: V -> bool)
  {
    exists i :: 0 <= i < |s| && f(s[i])
  }

  lemma {:induction false} AllOfFlatten<V>(ps: seq<seq<V>>, f: V -> bool)
    ensures AllOf(Flatten(ps), f) <==> forall w :: 0 <= w < |ps| ==> AllOf(ps[w], f)
  {
    if ps != [] {
      var init, last := ps[..|ps| - 1], ps[|ps| - 1];
      AllOfFlatten(init, f);
      var a := Flatten(init);
      assert Flatten(ps) == a + last;
      if AllOf(a + last, f) {
        forall w | 0 <= w < |ps| ensures AllOf(ps[w], f) {
          if w < |ps| - 1 {
            assert ps[w] == init[w];
            forall i | 0 <= i < |a| ensures f(a[i]) { assert a[i] == (a + last)[i]; }
          } else {
            forall i | 0 <= i < |last| ensures f(last[i]) { assert last[i] == (a + last)[|a| + i]; }
          }
        }
      }
      if forall w :: 0 <= w < |ps| ==> AllOf(ps[w], f) {
        assert forall w :: 0 <= w < |init| ==> init[w] == ps[w];
        assert AllOf(last, f);
        forall i | 0 <= i < |a + last| ensures f((a + last)[i]) {
          if i >= |a| { assert (a + last)[i] == last[i - |a|]; }
        }
      }
    }
  }

  lemma {:induction false} AnyOfFlatten<V>(ps: seq<seq<V>>, f: V -> bool)
    ensures AnyOf(Flatten(ps), f) <==> exists w :: 0 <= w < |ps| && AnyOf(ps[w], f)
  {
    var g := (v: V) => !f(v);
    AllOfFlatten(ps, g);
    assert AnyOf(Flatten(ps), f) <==> !AllOf(Flatten(ps), g);
    assert forall w :: 0 <= w < |ps| ==> (AnyOf(ps[w], f) <==> !AllOf(ps[w], g));
  }

  /** The per-partition counts. */
  ghost function Counts<V>(ps: seq<seq<V>>, f: V -> bool): (r: seq<int>)
    ensures |r| == |ps|
  {
    seq(|ps|, i requires 0 <= i < |ps| => CountOf(ps[i], f))
  }

  /** The per-partition filter buffers. */
  ghost function Filters<V>(ps: seq<seq<V>>, f: V -> bool): (r: seq<seq<V>>)
    ensures |r| == |ps|
  {
    seq(|ps|, i requires 0 <= i < |ps| => FilterOf(ps[i], f))
  }

  lemma {:induction false} CountOfFlatten<V>(ps: seq<seq<V>>, f: V -> bool)
    ensures SumOf(Counts(ps, f)) == CountOf(Flatten(ps), f)
  {
    if ps != [] {
      var init := ps[..|ps| - 1];
      CountOfFlatten(init, f);
      assert Counts(ps, f)[..|ps| - 1] == Counts(init, f);
      CountOfConcat(Flatten(init), ps[|ps| - 1], f);
    }
  }

  lemma {:induction false} FilterOfFlatten<V>(ps: seq<seq<V>>, f: V -> bool)
    ensures Flatten(Filters(ps, f)) == FilterOf(Flatten(ps), f)
  {
    if ps != [] {
      var init := ps[..|ps| - 1];
      FilterOfFlatten(init, f);
      assert Filters(ps, f)[..|ps| - 1] == Filters(init, f);
      FilterOfConcat(Flatten(init), ps[|ps| - 1], f);
    }
  }

  /** asParallel: the partitions are Chunk(values, cc); together they are the values. */
  method AsParallel<V>(e: Enumerable<V>, cc: nat) returns (pe: ParallelEnumerator<V>)
    requires cc >= 1
    ensures pe.partitions == Chunked(e.Values(), cc) && pe.length == |e.Values()|
    ensures Flatten(pe.partitions) == e.Values()
    ensures |pe.partitions| <= cc
  {
    var vals := e.Values();
    var partitions := Chunk(vals, cc);
    pe := ParallelEnumerator(partitions, |vals|);
    ChunkedFlatten(vals, cc);
    ChunkCountAtMost(|vals|, cc);
  }

  /** The body of one ParallelEach worker: f on every element of its partition, in order. */
  method EachWorker<V>(p: seq<V>) returns (calls: seq<V>)
    ensures calls == p
  {
    calls := [];
    for i := 0 to |p|
      invariant calls == p[..i]
    {
      calls := calls + [p[i]];
    }
  }

  /**
   * ParallelEach: the log of f's arguments is the partitions in schedule
   * order, so every element is passed to f exactly once.
   */
  method ParallelEach<V>(e: Enumerable<V>, cc: nat, schedule: seq<nat>) returns (calls: seq<V>)
    requires cc >= 1 && IsSchedule(schedule, ChunkCount(|e.Values()|, cc))
    ensures multiset(calls) == multiset(e.Values())
    ensures |calls| == |e.Values()|
  {
    var pe := AsParallel(e, cc);
    calls := [];
    for t := 0 to |schedule|
      invariant calls == Flatten(Permute(pe.partitions, schedule[..t]))
    {
      var c := EachWorker(pe.partitions[schedule[t]]);
      assert Permute(pe.partitions, schedule[..t + 1])[..t] == Permute(pe.partitions, schedule[..t]);
      calls := calls + c;
    }
    assert schedule[..|schedule|] == schedule;
    BagPermute(pe.partitions, schedule);
    assert |calls| == |multiset(calls)|;
  }

  /**
   * The body of one ParallelAll worker. Before each element it tries to
   * receive from the quit channel (`tokens` buffered values); on the first
   * element failing f it sends one value and clears the success flag.
   * `found` says it saw a failing element, `quit` that it received a token.
   */
  method AllWorker<V>(p: seq<V>, f: V -> bool, success: bool, tokens: nat, capacity: nat)
    returns (success': bool, tokens': nat, ghost found: bool, ghost quit: bool)
    requires tokens < capacity
    ensures !(found && quit)
    ensures found ==> !AllOf(p, f) && !success' && tokens' == tokens + 1
    ensures quit ==> tokens > 0 && tokens' == tokens - 1 && success' == success
    ensures !found && !quit ==> AllOf(p, f) && tokens' == tokens && success' == success
    ensures tokens' <= capacity && tokens <= tokens' + 1 && tokens' <= tokens + 1
    ensures success' ==> success
    ensures AllOf(p, f) ==> success' == success
  {
    success', tokens', found, quit := success, tokens, false, false;
    for i := 0 to |p|
      invariant tokens' == tokens && success' == success
      invariant forall j :: 0 <= j < i ==> f(p[j])
    {
      if tokens' > 0 {
        tokens' := tokens' - 1;
        quit := true;
        return;
      }
      if !f(p[i]) {
        tokens' := tokens' + 1;
        success' := false;
        found := true;
        return;
      }
    }
  }

  /**
   * The dispatch loop of ParallelAll: one AllWorker per partition, in
   * schedule order, sharing the flag and the quit channel (capacity cc).
   * The flag only moves from true to false, and the channel never holds
   * more than one value per finished worker, so no send blocks.
   */
  method RunAllWorkers<V>(parts: seq<seq<V>>, f: V -> bool, cc: nat, schedule: seq<nat>) returns (success: bool)
    requires |parts| <= cc && IsSchedule(schedule, |parts|)
    ensures success <==> forall w :: 0 <= w < |parts| ==> AllOf(parts[w], f)
  {
    success := true;
    var tokens: nat := 0;
    for t := 0 to |schedule|
      invariant tokens <= t
      invariant success ==> tokens == 0
      invariant success ==> forall j :: 0 <= j < t ==> AllOf(parts[schedule[j]], f)
      invariant !success ==> exists w :: 0 <= w < |parts| && !AllOf(parts[w], f)
    {
      ghost var found, quit;
      success, tokens, found, quit := AllWorker(parts[schedule[t]], f, success, tokens, cc);
    }
    if success {
      forall w | 0 <= w < |parts| ensures AllOf(parts[w], f) {
        assert w in schedule;
        var j :| 0 <= j < |schedule| && schedule[j] == w;
      }
    }
  }

  /** ParallelAll: true iff every element satisfies f, so true on an empty input. */
  method ParallelAll<V>(e: Enumerable<V>, f: V -> bool, cc: nat, schedule: seq<nat>) returns (r: bool)
    requires cc >= 1 && IsSchedule(schedule, ChunkCount(|e.Values()|, cc))
    ensures r <==> forall i :: 0 <= i < |e.Values()| ==> f(e.Values()[i])
  {
    var pe := AsParallel(e, cc);
    r := RunAllWorkers(pe.partitions, f, cc, schedule);
    AllOfFlatten(pe.partitions, f);
  }

  /** The body of one ParallelAny worker: as AllWorker with the test and the flag inverted. */
  method AnyWorker<V>(p: seq<V>, f: V -> bool, success: bool, tokens: nat, capacity: nat)
    returns (success': bool, tokens': nat, ghost found: bool, ghost quit: bool)
    requires tokens < capacity
    ensures !(found && quit)
    ensures found ==> AnyOf(p, f) && success' && tokens' == tokens + 1
    ensures quit ==> tokens > 0 && tokens' == tokens - 1 && success' == success
    ensures !found && !quit ==> !AnyOf(p, f) && tokens' == tokens && success' == success
    ensures tokens' <= capacity && tokens <= tokens' + 1 && tokens' <= tokens + 1
    ensures !success' ==> !success
    ensures !AnyOf(p, f) ==> success' == success
  {
    success', tokens', found, quit := success, tokens, false, false;
    for i := 0 to |p|
      invariant tokens' == tokens && success' == success
      invariant forall j :: 0 <= j < i ==> !f(p[j])
    {
      if tokens' > 0 {
        tokens' := tokens' - 1;
        quit := true;
        return;
      }
      if f(p[i]) {
        tokens' := tokens' + 1;
        success' := true;
        found := true;
        return;
      }
    }
  }

  /** The dispatch loop of ParallelAny: the flag only moves from false to true. */
  method RunAnyWorkers<V>(parts: seq<seq<V>>, f: V -> bool, cc: nat, schedule: seq<nat>) returns (success: bool)
    requires |parts| <= cc && IsSchedule(schedule, |parts|)
    ensures success <==> exists w :: 0 <= w < |parts| && AnyOf(parts[w], f)
  {
    success := false;
    var tokens: nat := 0;
    for t := 0 to |schedule|
      invariant tokens <= t
      invariant !success ==> tokens == 0
      invariant !success ==> forall j :: 0 <= j < t ==> !AnyOf(parts[schedule[j]], f)
      invariant success ==> exists w :: 0 <= w < |parts| && AnyOf(parts[w], f)
    {
      ghost var found, quit;
      success, tokens, found, quit := AnyWorker(parts[schedule[t]], f, success, tokens, cc);
    }
    if !success {
      forall w | 0 <= w < |parts| ensures !AnyOf(parts[w], f) {
        assert w in schedule;
        var j :| 0 <= j < |schedule| && schedule[j] == w;
      }
    }
  }

  /** ParallelAny: true iff some element satisfies f, so false on an empty input. */
  method ParallelAny<V>(e: Enumerable<V>, f: V -> bool, cc: nat, schedule: seq<nat>) returns (r: bool)
    requires cc >= 1 && IsSchedule(schedule, ChunkCount(|e.Values()|, cc))
    ensures r <==> exists i :: 0 <= i < |e.Values()| && f(e.Values()[i])
  {
    var pe := AsParallel(e, cc);
    r := RunAnyWorkers(pe.partitions, f, cc, schedule);
    AnyOfFlatten(pe.partitions, f);
  }

  /** The body of one ParallelCount worker: its local count. */
  method CountWorker<V>(p: seq<V>, f: V -> bool) returns (count: nat)
    ensures count == CountOf(p, f)
  {
    count := 0;
    for i := 0 to |p|
      invariant count == CountOf(p[..i], f)
    {
      assert p[..i + 1][..i] == p[..i];
      if f(p[i]) {
        count := count + 1;
      }
    }
    assert p[..|p|] == p;
  }

  /** ParallelCount: the local counts added in any order give the sequential Count. */
  method ParallelCount<V>(e: Enumerable<V>, f: V -> bool, cc: nat, schedule: seq<nat>) returns (count: nat)
    requires cc >= 1 && IsSchedule(schedule, ChunkCount(|e.Values()|, cc))
    ensures count == CountOf(e.Values(), f)
  {
    var pe := AsParallel(e, cc);
    ghost var locals := Counts(pe.partitions, f);
    count := 0;
    for t := 0 to |schedule|
      invariant count == SumOf(Permute(locals, schedule[..t]))
    {
      var local := CountWorker(pe.partitions[schedule[t]], f);
      assert Permute(locals, schedule[..t + 1])[..t] == Permute(locals, schedule[..t]);
      count := count + local;
    }
    assert schedule[..|schedule|] == schedule;
    SumPermute(locals, schedule);
    CountOfFlatten(pe.partitions, f);
  }

  /** Index of the chunk that position j falls in. */
  function RegionOf(n: nat, k: nat, j: nat): nat
    requires k >= 1 && j < n
  {
    CeilDivBounds(n, k);
    j / ChunkSize(n, k)
  }

  /** Position j < n lies in exactly one chunk region, the one RegionOf names. */
  lemma RegionOfBounds(n: nat, k: nat, j: nat)
    requires k >= 1 && j < n
    ensures RegionOf(n, k, j) < ChunkCount(n, k)
    ensures ChunkStart(n, k, RegionOf(n, k, j)) <= j < ChunkEnd(n, k, RegionOf(n, k, j))
  {
    var size, q := ChunkSize(n, k), RegionOf(n, k, j);
    CeilDivBounds(n, k);
    assert j == q * size + j % size;
    var c := ChunkCount(n, k);
    CeilDivBounds(n, size);
    if q >= c {
      if q > c {
        MulStrict(c, q, size);
      }
      assert false;
    }
    ChunkArithmetic(n, k, q);
  }

  /** Regions come in index order: a region ends no later than any later region starts. */
  lemma RegionOrder(n: nat, k: nat, v: nat, w: nat)
    requires k >= 1 && v < w < ChunkCount(n, k)
    ensures ChunkEnd(n, k, v) <= ChunkStart(n, k, w)
  {
    ChunkArithmetic(n, k, v);
    ChunkArithmetic(n, k, w);
    var size := ChunkSize(n, k);
    assert (v + 1) * size == v * size + size;
    if v + 1 < w {
      MulStrict(v + 1, w, size);
    }
  }

  /** Chunk regions are disjoint: position j is in region w only when w is RegionOf(j). */
  lemma RegionsDisjoint(n: nat, k: nat, w: nat, j: nat)
    requires k >= 1 && w < ChunkCount(n, k) && ChunkStart(n, k, w) <= j < ChunkEnd(n, k, w)
    ensures j < n && RegionOf(n, k, j) == w
  {
    RegionOfBounds(n, k, j);
    var q := RegionOf(n, k, j);
    if q < w {
      RegionOrder(n, k, q, w);
    } else if w < q {
      RegionOrder(n, k, w, q);
    }
  }

  /** Partition w is the slice [ChunkStart(w), ChunkEnd(w)) of s. */
  lemma ChunkedAt<T>(s: seq<T>, k: nat)
    requires k >= 1
    ensures |Chunked(s, k)| == ChunkCount(|s|, k)
    ensures forall w :: 0 <= w < |Chunked(s, k)| ==>
      |Chunked(s, k)[w]| == ChunkEnd(|s|, k, w) - ChunkStart(|s|, k, w)
    ensures forall w, i :: 0 <= w < |Chunked(s, k)| && 0 <= i < |Chunked(s, k)[w]| ==>
      Chunked(s, k)[w][i] == s[ChunkStart(|s|, k, w) + i]
  {
  }

  /**
   * The body of one ParallelMap worker: `r[i] = f(p[i])` where r is its
   * region [lo, hi) of the result. It writes inside its region only.
   */
  method MapWorker<V, R>(p: seq<V>, f: V -> R, result: array<R>, lo: nat, hi: nat)
    requires lo <= hi <= result.Length && |p| <= hi - lo
    modifies result
    ensures forall i :: 0 <= i < |p| ==> result[lo + i] == f(p[i])
    ensures forall j :: 0 <= j < result.Length && !(lo <= j < hi) ==> result[j] == old(result[j])
  {
    for i := 0 to |p|
      invariant forall i' :: 0 <= i' < i ==> result[lo + i'] == f(p[i'])
      invariant forall j :: 0 <= j < result.Length && !(lo <= j < lo + i) ==> result[j] == old(result[j])
    {
      result[lo + i] := f(p[i]);
    }
  }

  /**
   * The dispatch loop of ParallelMap: worker w maps partition w into region
   * w of Chunk(result, cc). Regions are disjoint, so a later worker leaves
   * the work of an earlier one intact.
   */
  method RunMapWorkers<V, R>(parts: seq<seq<V>>, f: V -> R, result: array<R>, cc: nat, schedule: seq<nat>)
    requires cc >= 1 && |parts| <= ChunkCount(result.Length, cc) && IsSchedule(schedule, |parts|)
    requires forall w :: 0 <= w < |parts| ==>
      |parts[w]| <= ChunkEnd(result.Length, cc, w) - ChunkStart(result.Length, cc, w)
    modifies result
    ensures forall w, i :: 0 <= w < |parts| && 0 <= i < |parts[w]| ==>
      result[ChunkStart(result.Length, cc, w) + i] == f(parts[w][i])
  {
    var n := result.Length;
    for t := 0 to |schedule|
      invariant forall w, i :: 0 <= w < |parts| && w in schedule[..t] && 0 <= i < |parts[w]| ==>
        result[ChunkStart(n, cc, w) + i] == f(parts[w][i])
    {
      var w := schedule[t];
      var lo, hi := ChunkStart(n, cc, w), ChunkEnd(n, cc, w);
      ChunkArithmetic(n, cc, w);
      ghost var before := result[..];
      MapWorker(parts[w], f, result, lo, hi);
      forall v, i | 0 <= v < |parts| && v in schedule[..t + 1] && 0 <= i < |parts[v]|
        ensures result[ChunkStart(n, cc, v) + i] == f(parts[v][i])
      {
        if v != w {
          assert v in schedule[..t];
          var pos := ChunkStart(n, cc, v) + i;
          ChunkArithmetic(n, cc, v);
          RegionsDisjoint(n, cc, v, pos);
          if lo <= pos < hi {
            RegionsDisjoint(n, cc, w, pos);
          }
          assert result[pos] == before[pos];
        }
      }
    }
    forall w, i | 0 <= w < |parts| && 0 <= i < |parts[w]|
      ensures result[ChunkStart(n, cc, w) + i] == f(parts[w][i])
    {
      assert w in schedule;
      assert schedule[..|schedule|] == schedule;
    }
  }

  /**
   * ParallelMap: the result has the input's length and element i is
   * f(element i). Region w of the result has the bounds of partition w,
   * because the result has the input's length.
   */
  method ParallelMap<V, R(0)>(e: Enumerable<V>, f: V -> R, cc: nat, schedule: seq<nat>) returns (m: Enumerable<R>)
    requires cc >= 1 && IsSchedule(schedule, ChunkCount(|e.Values()|, cc))
    ensures |m.Values()| == |e.Values()|
    ensures forall i :: 0 <= i < |e.Values()| ==> m.Values()[i] == f(e.Values()[i])
  {
    var pe := AsParallel(e, cc);
    var s := e.Values();
    var n := pe.length;
    var result := new R[n];
    ChunkedAt(s, cc);
    RunMapWorkers(pe.partitions, f, result, cc, schedule);
    forall j | 0 <= j < n ensures result[j] == f(s[j]) {
      RegionOfBounds(n, cc, j);
      var w := RegionOf(n, cc, j);
      var i := j - ChunkStart(n, cc, w);
      assert pe.partitions[w][i] == s[j];
    }
    m := GetSliceEnumerable(result[..]);
  }

  /** The body of one ParallelFilter worker: append the passing elements to its own slot. */
  method FilterWorker<V>(p: seq<V>, f: V -> bool, slots: array<seq<V>>, idx: nat)
    requires idx < slots.Length
    modifies slots
    ensures slots[idx] == old(slots[idx]) + FilterOf(p, f)
    ensures forall j :: 0 <= j < slots.Length && j != idx ==> slots[j] == old(slots[j])
  {
    for i := 0 to |p|
      invariant slots[idx] == old(slots[idx]) + FilterOf(p[..i], f)
      invariant forall j :: 0 <= j < slots.Length && j != idx ==> slots[j] == old(slots[j])
    {
      assert p[..i + 1][..i] == p[..i];
      if f(p[i]) {
        slots[idx] := slots[idx] + [p[i]];
      }
    }
    assert p[..|p|] == p;
  }

  /** The dispatch loop of ParallelFilter: worker w fills slot w only. */
  method RunFilterWorkers<V>(parts: seq<seq<V>>, f: V -> bool, slots: array<seq<V>>, schedule: seq<nat>)
    requires |parts| <= slots.Length && IsSchedule(schedule, |parts|)
    requires forall w :: 0 <= w < slots.Length ==> slots[w] == []
    modifies slots
    ensures slots[..|parts|] == Filters(parts, f)
    ensures forall w :: |parts| <= w < slots.Length ==> slots[w] == []
  {
    for t := 0 to |schedule|
      invariant forall w :: 0 <= w < slots.Length ==>
        slots[w] == if w < |parts| && w in schedule[..t] then FilterOf(parts[w], f) else []
    {
      var w := schedule[t];
      assert w !in schedule[..t];
      FilterWorker(parts[w], f, slots, w);
    }
    assert schedule[..|schedule|] == schedule;
    assert forall w :: 0 <= w < |parts| ==> w in schedule;
  }

  /**
   * ParallelFilter: cc slots, slot w filled by worker w (slots past the
   * partition count stay empty), joined in slot order: the sequential Filter.
   */
  method ParallelFilter<V>(e: Enumerable<V>, f: V -> bool, cc: nat, schedule: seq<nat>) returns (r: Enumerable<V>)
    requires cc >= 1 && IsSchedule(schedule, ChunkCount(|e.Values()|, cc))
    ensures r.Values() == FilterOf(e.Values(), f)
  {
    var pe := AsParallel(e, cc);
    var slots := new seq<V>[cc](_ => []);
    RunFilterWorkers(pe.partitions, f, slots, schedule);
    var joined, _ := Join(slots[..], []);
    JoinedSlots(pe.partitions, f, slots[..]);
    r := GetSliceEnumerable(joined);
  }

  /** Joining the filled slots followed by empty ones gives the filter of all partitions together. */
  lemma JoinedSlots<V>(parts: seq<seq<V>>, f: V -> bool, slots: seq<seq<V>>)
    requires |parts| <= |slots| && slots[..|parts|] == Filters(parts, f)
    requires forall w :: |parts| <= w < |slots| ==> slots[w] == []
    ensures Flatten(slots) == FilterOf(Flatten(parts), f)
  {
    assert slots == Filters(parts, f) + slots[|parts|..];
    FlattenConcat(Filters(parts, f), slots[|parts|..]);
    FlattenEmpties(slots[|parts|..]);
    FilterOfFlatten(parts, f);
  }

  /**
   * The cc partial results ParallelReduce hands the combiner: slot w is the
   * left fold of f over partition w from the zero value; slots without a
   * partition keep the zero value.
   */
  function Partials<V, R>(s: seq<V>, f: (R, V) -> R, zero: R, cc: nat): (r: seq<R>)
    requires cc >= 1
    ensures |r| == cc
  {
    seq(cc, w requires 0 <= w < cc =>
      if w < |Chunked(s, cc)| then FoldLeft(f, zero, Chunked(s, cc)[w]) else zero)
  }

  /** The body of one ParallelReduce worker: fold f over its partition into its own slot. */
  method ReduceWorker<V, R>(p: seq<V>, f: (R, V) -> R, partials: array<R>, idx: nat)
    requires idx < partials.Length
    modifies partials
    ensures partials[idx] == FoldLeft(f, old(partials[idx]), p)
    ensures forall j :: 0 <= j < partials.Length && j != idx ==> partials[j] == old(partials[j])
  {
    for i := 0 to |p|
      invariant partials[idx] == FoldLeft(f, old(partials[idx]), p[..i])
      invariant forall j :: 0 <= j < partials.Length && j != idx ==> partials[j] == old(partials[j])
    {
      assert p[..i + 1][..i] == p[..i];
      partials[idx] := f(partials[idx], p[i]);
    }
    assert p[..|p|] == p;
  }

  /**
   * ParallelReduce: the combiner applied to the cc partials. `initial` is
   * never read: the partials start at the zero value of R (passed as `zero`).
   */
  method ParallelReduce<V, R>(e: Enumerable<V>, f: (R, V) -> R, combiner: seq<R> -> R, initial: R,
                              zero: R, cc: nat, schedule: seq<nat>) returns (r: R)
    requires cc >= 1 && IsSchedule(schedule, ChunkCount(|e.Values()|, cc))
    ensures r == combiner(Partials(e.Values(), f, zero, cc))
  {
    var pe := AsParallel(e, cc);
    var parts := pe.partitions;
    var partials := new R[cc](_ => zero);
    for t := 0 to |schedule|
      invariant forall w :: 0 <= w < cc ==> partials[w] == if w in schedule[..t] then FoldLeft(f, zero, parts[w]) else zero
    {
      var w := schedule[t];
      assert w !in schedule[..t];
      ReduceWorker(parts[w], f, partials, w);
    }
    assert schedule[..|schedule|] == schedule;
    assert partials[..] == Partials(e.Values(), f, zero, cc);
    r := combiner(partials[..]);
  }

  /** The per-partition sums. */
  ghost function Sums(ps: seq<seq<int>>): (r: seq<int>)
    ensures |r| == |ps|
  {
    seq(|ps|, i requires 0 <= i < |ps| => SumOf(ps[i]))
  }

  lemma {:induction false} SumOfFlatten(ps: seq<seq<int>>)
    ensures SumOf(Sums(ps)) == SumOf(Flatten(ps))
  {
    if ps != [] {
      var init := ps[..|ps| - 1];
      SumOfFlatten(init);
      assert Sums(ps)[..|ps| - 1] == Sums(init);
      SumOfConcat(Flatten(init), ps[|ps| - 1]);
    }
  }

  lemma {:induction false} SumOfZeros(s: seq<int>)
    requires forall i :: 0 <= i < |s| ==> s[i] == 0
    ensures SumOf(s) == 0
  {
    if s != [] {
      SumOfZeros(s[..|s| - 1]);
    }
  }

  /** With f = + and the summing combiner, ParallelReduce from 0 computes Sum. */
  lemma ParallelReduceIsSum(s: seq<int>, cc: nat)
    requires cc >= 1
    ensures SumOf(Partials(s, (acc: int, v: int) => acc + v, 0, cc)) == SumOf(s)
  {
    var plus := (acc: int, v: int) => acc + v;
    var parts := Chunked(s, cc);
    var ps := Partials(s, plus, 0, cc);
    ChunkCountAtMost(|s|, cc);
    forall w | 0 <= w < |parts| ensures ps[w] == SumOf(parts[w]) {
      SumIsFold(parts[w]);
    }
    assert ps == Sums(parts) + ps[|parts|..];
    SumOfConcat(Sums(parts), ps[|parts|..]);
    SumOfZeros(ps[|parts|..]);
    SumOfFlatten(parts);
    ChunkedFlatten(s, cc);
  }

  /**
   * ParallelReduce's result, `combiner(Partials(values, f, zero, cc))`, does
   * not involve `initial`. With f = + and the summing combiner it therefore
   * falls short of the sequential Reduce from `initial` by exactly `initial`,
   * on every input and every cc.
   */
  lemma ParallelReduceIgnoresInitial(s: seq<int>, cc: nat, initial: int)
    requires cc >= 1
    ensures SumOf(Partials(s, (acc: int, v: int) => acc + v, 0, cc)) + initial
            == FoldLeft((acc: int, v: int) => acc + v, initial, s)
  {
    ParallelReduceIsSum(s, cc);
    FoldAddShift(s, initial);
  }

  /**
   * The Chunk test's input [1..8]: Count and Filter of the even values. ParallelCount and
   * ParallelFilter give the same results for every cc, by their ensures.
   */
  lemma EightElementFilter()
    ensures CountOf([1, 2, 3, 4, 5, 6, 7, 8], (v: int) => v % 2 == 0) == 4
    ensures FilterOf([1, 2, 3, 4, 5, 6, 7, 8], (v: int) => v % 2 == 0) == [2, 4, 6, 8]
  {
    var s := [1, 2, 3, 4, 5, 6, 7, 8];
    var even := (v: int) => v % 2 == 0;
    assert s[..7] == [1, 2, 3, 4, 5, 6, 7];
    assert s[..7][..6] == [1, 2, 3, 4, 5, 6];
    assert s[..7][..6][..5] == [1, 2, 3, 4, 5];
    assert s[..7][..6][..5][..4] == [1, 2, 3, 4];
    assert [1, 2, 3, 4][..3] == [1, 2, 3];
    assert [1, 2, 3][..2] == [1, 2];
    assert [1, 2][..1] == [1];
    assert [1][..0] == [];
    assert FilterOf([1], even) == [];
    assert FilterOf([1, 2], even) == [2];
    assert FilterOf([1, 2, 3], even) == [2];
    assert FilterOf([1, 2, 3, 4], even) == [2, 4];
    assert FilterOf([1, 2, 3, 4, 5], even) == [2, 4];
    assert FilterOf([1, 2, 3, 4, 5, 6], even) == [2, 4, 6];
    assert FilterOf([1, 2, 3, 4, 5, 6, 7], even) == [2, 4, 6];
    CountOfBound(s, even);
  }

  /** The Chunk test's input [1..8], with cc = 3: the partials of a sum reduction and their total. */
  lemma EightElementPartials()
    ensures Partials([1, 2, 3, 4, 5, 6, 7, 8], (acc: int, v: int) => acc + v, 0, 3) == [6, 15, 15]
    ensures SumOf(Partials([1, 2, 3, 4, 5, 6, 7, 8], (acc: int, v: int) => acc + v, 0, 3)) == 36
  {
    var s := [1, 2, 3, 4, 5, 6, 7, 8];
    var plus := (acc: int, v: int) => acc + v;
    ChunkEightIntoThree();
    assert [1, 2, 3][..2] == [1, 2];
    assert [1, 2][..1] == [1];
    assert [1][..0] == [];
    assert [4, 5, 6][..2] == [4, 5];
    assert [4, 5][..1] == [4];
    assert [4][..0] == [];
    assert [7, 8][..1] == [7];
    assert [7][..0] == [];
    var ps := Partials(s, plus, 0, 3);
    assert ps[0] == FoldLeft(plus, 0, [1, 2, 3]) == 6;
    assert ps[1] == FoldLeft(plus, 0, [4, 5, 6]) == 15;
    assert ps[2] == FoldLeft(plus, 0, [7, 8]) == 15;
    assert ps[..2] == [6, 15];
    assert ps[..2][..1] == [6];
    assert [6][..0] == [];
  }
}
