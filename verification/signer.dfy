/**
 * The hash pipeline of signer.go with its goroutines and channels replaced by
 * sequences. A channel's contents are a sequence of values; since the
 * goroutines of a stage finish in no fixed order, a stage's output may be any
 * rearrangement of the values it computes, so a run is constrained only by the
 * multiset of each channel's contents. The two hash primitives are left
 * uninterpreted: they are parameters, deterministic functions on strings.
 */
module Signer {
  import opened Wrappers
  import Decimal
  import LexOrder

  /** A value sent on a channel (Go's interface{}): a string, an int, or anything else. */
  datatype Value = Str(s: string) | Int(n: int) | Unsupported(kind: string)

  /** DataSignerCrc32 and DataSignerMd5. */
  datatype Hashers = Hashers(crc: string -> string, md5: string -> string)

  // ---------------------------------------------------------------------------
  // Sequences, filtered and mapped

  /** g applied to every element, keeping the present results in order. */
  function FilterMap<A, B>(g: A -> Option<B>, s: seq<A>): seq<B> {
    if s == [] then []
    else
      var rest := FilterMap(g, s[..|s| - 1]);
      match g(s[|s| - 1])
      case Some(b) => rest + [b]
      case None => rest
  }

  lemma {:induction false} FilterMapAppend<A, B>(g: A -> Option<B>, a: seq<A>, b: seq<A>)
    ensures FilterMap(g, a + b) == FilterMap(g, a) + FilterMap(g, b)
    decreases |b|
  {
    if b == [] {
      assert a + b == a;
    } else {
      FilterMapAppend(g, a, b[..|b| - 1]);
      assert (a + b)[..|a + b| - 1] == a + b[..|b| - 1];
    }
  }

  /** FilterMap is blind to order: rearranging its input rearranges its output. */
  lemma {:induction false} FilterMapPermutation<A, B>(g: A -> Option<B>, a: seq<A>, b: seq<A>)
    requires multiset(a) == multiset(b)
    ensures multiset(FilterMap(g, a)) == multiset(FilterMap(g, b))
    decreases |a|
  {
    if a == [] {
      assert |b| == |multiset(b)| == 0;
    } else {
      var x := a[|a| - 1];
      var a' := a[..|a| - 1];
      assert a == a' + [x];
      assert x in multiset(b);
      var i :| 0 <= i < |b| && b[i] == x;
      var b1, b2 := b[..i], b[i + 1..];
      assert b == b1 + [x] + b2;
      assert multiset(a') == multiset(a) - multiset{x};
      assert multiset(b1 + b2) == multiset(b) - multiset{x};
      FilterMapPermutation(g, a', b1 + b2);
      FilterMapAppend(g, a', [x]);
      FilterMapAppend(g, b1, b2);
      FilterMapAppend(g, b1 + [x], b2);
      FilterMapAppend(g, b1, [x]);
    }
  }

  /** When g always yields a value, FilterMap is an ordinary map. */
  lemma {:induction false} FilterMapTotal<A, B>(g: A -> Option<B>, s: seq<A>)
    requires forall x :: g(x).Some?
    ensures |FilterMap(g, s)| == |s|
    ensures forall k :: 0 <= k < |s| ==> FilterMap(g, s)[k] == g(s[k]).value
  {
    if s != [] {
      FilterMapTotal(g, s[..|s| - 1]);
    }
  }

  // ---------------------------------------------------------------------------
  // The type switch of IterateOverChan and CombineResults

  /** A string as it is, an int as strconv.Itoa of it, anything else nothing. */
  function Convert(v: Value): Option<string> {
    match v
    case Str(s) => Some(s)
    case Int(n) => Some(Decimal.Itoa(n))
    case Unsupported(_) => None
  }

  /** The texts of the accepted values, in input order. */
  function Supported(vs: seq<Value>): seq<string> {
    FilterMap(Convert, vs)
  }

  /** One value anywhere in a stream: a string contributes itself, an int its decimal text, anything else nothing. */
  lemma SupportedElement(a: seq<Value>, v: Value, b: seq<Value>)
    ensures v.Str? ==> Supported(a + [v] + b) == Supported(a) + [v.s] + Supported(b)
    ensures v.Int? ==> Supported(a + [v] + b) == Supported(a) + [Decimal.Itoa(v.n)] + Supported(b)
    ensures v.Unsupported? ==> Supported(a + [v] + b) == Supported(a + b)
  {
    FilterMapAppend(Convert, a + [v], b);
    FilterMapAppend(Convert, a, [v]);
    FilterMapAppend(Convert, a, b);
    assert FilterMap(Convert, [v]) == FilterMap(Convert, []) + (if v.Unsupported? then [] else [Convert(v).value]) by {
      assert [v][..0] == [];
    }
  }

  // ---------------------------------------------------------------------------
  // IterateOverChan: one goroutine per accepted value, each sending f of it

  function Emit(f: string -> string): string -> Option<Value> {
    s => Some(Str(f(s)))
  }

  function Hash(f: string -> string): string -> Option<string> {
    s => Some(f(s))
  }

  /** What IterateOverChan sends on out, listed in the order of its input. */
  function StageOutputs(f: string -> string, vs: seq<Value>): seq<Value> {
    FilterMap(Emit(f), Supported(vs))
  }

  /** The strings f produces for a sequence of texts, in order. */
  function Hashed(f: string -> string, ss: seq<string>): seq<string> {
    FilterMap(Hash(f), ss)
  }

  /** One output per accepted input: the k-th output is f applied to the k-th accepted text. */
  lemma StageOutputsMeaning(f: string -> string, vs: seq<Value>)
    ensures |StageOutputs(f, vs)| == |Supported(vs)|
    ensures forall k :: 0 <= k < |Supported(vs)| ==> StageOutputs(f, vs)[k] == Str(f(Supported(vs)[k]))
  {
    FilterMapTotal(Emit(f), Supported(vs));
  }

  /** Reading a stage's output as the next stage does gives the hashed texts. */
  lemma {:induction false} SupportedStageOutputs(f: string -> string, ss: seq<string>)
    ensures Supported(FilterMap(Emit(f), ss)) == Hashed(f, ss)
  {
    if ss != [] {
      var init := ss[..|ss| - 1];
      SupportedStageOutputs(f, init);
      FilterMapAppend(Convert, FilterMap(Emit(f), init), [Str(f(ss[|ss| - 1]))]);
      assert [Str(f(ss[|ss| - 1]))][..0] == [];
    }
  }

  // ---------------------------------------------------------------------------
  // SingleHash

  /** crc of the value, "~", crc of the md5 of the value. */
  function SingleHash(h: Hashers, v: string): string {
    h.crc(v) + "~" + h.crc(h.md5(v))
  }

  /** The text before and the text after the first sep in s, if there is one. */
  function SplitAtFirst(s: string, sep: char): Option<(string, string)> {
    if s == [] then None
    else if s[0] == sep then Some(([], s[1..]))
    else
      match SplitAtFirst(s[1..], sep)
      case Some(parts) => Some(([s[0]] + parts.0, parts.1))
      case None => None
  }

  lemma {:induction false} SplitAtFirstJoin(a: string, sep: char, b: string)
    requires sep !in a
    ensures SplitAtFirst(a + [sep] + b, sep) == Some((a, b))
  {
    if a == [] {
      assert a + [sep] + b == [sep] + b;
    } else {
      SplitAtFirstJoin(a[1..], sep, b);
      assert (a + [sep] + b)[1..] == a[1..] + [sep] + b;
      assert [a[0]] + a[1..] == a;
    }
  }

  /**
   * The two halves are recoverable: the plain crc is on the left of the "~",
   * the crc of the md5 on the right (a crc text holds no "~").
   */
  lemma SingleHashParts(h: Hashers, v: string)
    requires '~' !in h.crc(v)
    ensures SplitAtFirst(SingleHash(h, v), '~') == Some((h.crc(v), h.crc(h.md5(v))))
  {
    SplitAtFirstJoin(h.crc(v), '~', h.crc(h.md5(v)));
  }

  // ---------------------------------------------------------------------------
  // MultiHash

  /** The number of slots, th in signer.go. */
  const Th: nat := 6

  /** crc(Itoa(0) + v) + crc(Itoa(1) + v) + ... + crc(Itoa(n - 1) + v). */
  function Slots(h: Hashers, v: string, n: nat): string {
    if n == 0 then "" else Slots(h, v, n - 1) + h.crc(Decimal.Itoa(n - 1) + v)
  }

  function MultiHashOf(h: Hashers, v: string): string {
    Slots(h, v, Th)
  }

  /** Slot i comes right after slots 0 .. i - 1: the slots are laid out in index order. */
  lemma {:induction false} SlotsInIndexOrder(h: Hashers, v: string, i: nat, n: nat)
    requires i < n
    ensures Slots(h, v, i) + h.crc(Decimal.Itoa(i) + v) <= Slots(h, v, n)
  {
    if i < n - 1 {
      SlotsInIndexOrder(h, v, i, n - 1);
    }
  }

  lemma {:induction false} SlotsLength(h: Hashers, v: string, n: nat, w: nat)
    requires forall j :: 0 <= j < n ==> |h.crc(Decimal.Itoa(j) + v)| == w
    ensures |Slots(h, v, n)| == n * w
  {
    if n > 0 {
      SlotsLength(h, v, n - 1, w);
      assert (n - 1) * w + w == n * w;
    }
  }

  /** With crc texts of one width w, characters i*w up to (i+1)*w hold slot i. */
  lemma SlotAt(h: Hashers, v: string, w: nat, i: nat)
    requires forall j :: 0 <= j < Th ==> |h.crc(Decimal.Itoa(j) + v)| == w
    requires i < Th
    ensures |MultiHashOf(h, v)| == Th * w
    ensures MultiHashOf(h, v)[i * w .. i * w + w] == h.crc(Decimal.Itoa(i) + v)
  {
    SlotsLength(h, v, Th, w);
    SlotsLength(h, v, i, w);
    SlotsInIndexOrder(h, v, i, Th);
    var p := Slots(h, v, i) + h.crc(Decimal.Itoa(i) + v);
    assert MultiHashOf(h, v)[i * w .. i * w + w] == p[i * w .. i * w + w];
  }

  /** How many times x occurs in s. */
  function Count(s: seq<nat>, x: nat): nat {
    if s == [] then 0 else Count(s[..|s| - 1], x) + (if s[|s| - 1] == x then 1 else 0)
  }

  lemma {:induction false} CountIsMultiplicity(s: seq<nat>, x: nat)
    ensures Count(s, x) == multiset(s)[x]
  {
    if s != [] {
      CountIsMultiplicity(s[..|s| - 1], x);
      assert s == s[..|s| - 1] + [s[|s| - 1]];
    }
  }

  /** The six goroutines, each once, in any order: every index below Th occurs exactly once. */
  lemma SlotOrder(order: seq<nat>)
    requires multiset(order) == multiset{0, 1, 2, 3, 4, 5}
    ensures |order| == Th
    ensures forall k :: 0 <= k < |order| ==> order[k] < Th
    ensures forall i :: 0 <= i < Th ==> Count(order, i) == 1
  {
    forall i | 0 <= i < Th
      ensures Count(order, i) == 1
    {
      CountIsMultiplicity(order, i);
    }
    assert |order| == |multiset(order)|;
    forall k | 0 <= k < |order|
      ensures order[k] < Th
    {
      assert order[k] in multiset(order);
    }
  }

  /**
   * multiHash: six goroutines, goroutine i writing slot i of hashesSlice;
   * `order` is the order in which they happen to run. The slots are then
   * concatenated in index order. Each slot is written once, and the result
   * does not depend on `order`.
   */
  method MultiHash(h: Hashers, v: string, order: seq<nat>) returns (sum: string, ghost writes: seq<nat>)
    requires multiset(order) == multiset{0, 1, 2, 3, 4, 5}
    ensures |writes| == Th && forall i :: 0 <= i < Th ==> writes[i] == 1
    ensures sum == MultiHashOf(h, v)
  {
    SlotOrder(order);
    var hashesSlice := new string[Th];
    writes := [0, 0, 0, 0, 0, 0];
    var k := 0;
    while k < |order|
      invariant 0 <= k <= |order|
      invariant |writes| == Th
      invariant forall i :: 0 <= i < Th ==> writes[i] == Count(order[..k], i)
      invariant forall i :: 0 <= i < Th && writes[i] > 0 ==> hashesSlice[i] == h.crc(Decimal.Itoa(i) + v)
    {
      var i := order[k];
      hashesSlice[i] := h.crc(Decimal.Itoa(i) + v);
      writes := writes[i := writes[i] + 1];
      assert order[..k + 1][..k] == order[..k];
      k := k + 1;
    }
    assert order[..k] == order;
    sum := "";
    for j := 0 to Th
      invariant sum == Slots(h, v, j)
    {
      sum := sum + hashesSlice[j];
    }
  }

  // ---------------------------------------------------------------------------
  // CombineResults

  /** The strings with "_" between neighbours; "" for none. */
  function Join(xs: seq<string>): string {
    if xs == [] then ""
    else if |xs| == 1 then xs[0]
    else Join(xs[..|xs| - 1]) + "_" + xs[|xs| - 1]
  }

  /** The pieces of s between its "_" characters; the inverse of Join. */
  function Fields(s: string): (r: seq<string>)
    ensures |r| >= 1
  {
    if s == [] then [""]
    else
      var f := Fields(s[..|s| - 1]);
      if s[|s| - 1] == '_' then f + [""] else f[..|f| - 1] + [f[|f| - 1] + [s[|s| - 1]]]
  }

  lemma {:induction false} FieldsAfterSeparator(a: string, b: string)
    requires '_' !in b
    ensures Fields(a + "_" + b) == Fields(a) + [b]
    decreases |b|
  {
    if b == [] {
      assert (a + "_" + b)[..|a + "_" + b| - 1] == a;
    } else {
      var b' := b[..|b| - 1];
      FieldsAfterSeparator(a, b');
      assert (a + "_" + b)[..|a + "_" + b| - 1] == a + "_" + b';
      assert b' + [b[|b| - 1]] == b;
    }
  }

  lemma {:induction false} FieldsWithoutSeparator(b: string)
    requires '_' !in b
    ensures Fields(b) == [b]
    decreases |b|
  {
    if b != [] {
      var b' := b[..|b| - 1];
      FieldsWithoutSeparator(b');
      assert b' + [b[|b| - 1]] == b;
    }
  }

  /** Splitting the joined text at "_" gives back the strings, when none of them holds a "_". */
  lemma {:induction false} FieldsJoin(xs: seq<string>)
    requires |xs| >= 1
    requires forall i :: 0 <= i < |xs| ==> '_' !in xs[i]
    ensures Fields(Join(xs)) == xs
    decreases |xs|
  {
    if |xs| == 1 {
      FieldsWithoutSeparator(xs[0]);
    } else {
      var init := xs[..|xs| - 1];
      FieldsJoin(init);
      FieldsAfterSeparator(Join(init), xs[|xs| - 1]);
      assert init + [xs[|xs| - 1]] == xs;
    }
  }

  /** The joined text begins with the first string and ends with the last: no stray separator at either end. */
  lemma {:induction false} JoinEnds(xs: seq<string>)
    requires |xs| >= 1
    ensures xs[0] <= Join(xs)
    ensures |xs[|xs| - 1]| <= |Join(xs)| && Join(xs)[|Join(xs)| - |xs[|xs| - 1]|..] == xs[|xs| - 1]
    decreases |xs|
  {
    if |xs| > 1 {
      JoinEnds(xs[..|xs| - 1]);
      var j := Join(xs[..|xs| - 1]);
      assert Join(xs) == j + ("_" + xs[|xs| - 1]);
    }
  }

  /** CombineResults' single output: the accepted texts, sorted, joined with "_". */
  function Combined(vs: seq<Value>): string {
    Join(LexOrder.Sort(Supported(vs)))
  }

  /** CombineResults: collect, sort, join, send one value. */
  method CombineResults(ins: seq<Value>) returns (out: seq<Value>)
    ensures out == [Str(Combined(ins))]
    ensures Supported(ins) == [] ==> out == [Str("")]
  {
    var resultSlice: seq<string> := [];
    for idx := 0 to |ins|
      invariant resultSlice == Supported(ins[..idx])
    {
      assert ins[..idx + 1][..idx] == ins[..idx];
      match ins[idx]
      case Str(s) =>
        resultSlice := resultSlice + [s];
      case Int(n) =>
        resultSlice := resultSlice + [Decimal.Itoa(n)];
      case Unsupported(_) =>
    }
    assert ins[..|ins|] == ins;
    resultSlice := LexOrder.Sort(resultSlice);
    var resultHash := "";
    for index := 0 to |resultSlice|
      invariant resultHash == Join(resultSlice[..index])
    {
      assert resultSlice[..index + 1][..index] == resultSlice[..index];
      if index == 0 {
        resultHash := resultHash + resultSlice[index];
      } else {
        resultHash := resultHash + "_" + resultSlice[index];
      }
    }
    assert resultSlice[..|resultSlice|] == resultSlice;
    out := [Str(resultHash)];
  }

  /** The arrival order of CombineResults' input does not matter. */
  lemma CombinedPermutationInvariant(a: seq<Value>, b: seq<Value>)
    requires multiset(a) == multiset(b)
    ensures Combined(a) == Combined(b)
  {
    FilterMapPermutation(Convert, a, b);
    LexOrder.SortPermutationInvariant(Supported(a), Supported(b));
  }

  /** A value that is neither a string nor an int leaves CombineResults' output unchanged. */
  lemma CombinedDropsUnsupported(a: seq<Value>, kind: string, b: seq<Value>)
    ensures Combined(a + [Unsupported(kind)] + b) == Combined(a + b)
  {
    SupportedElement(a, Unsupported(kind), b);
  }

  /** Splitting CombineResults' output at "_" gives the sorted texts, when none holds a "_". */
  lemma CombinedFields(vs: seq<Value>)
    requires |Supported(vs)| >= 1
    requires forall s :: s in Supported(vs) ==> '_' !in s
    ensures Fields(Combined(vs)) == LexOrder.Sort(Supported(vs))
    ensures LexOrder.Sorted(Fields(Combined(vs)))
  {
    var sorted := LexOrder.Sort(Supported(vs));
    forall i | 0 <= i < |sorted|
      ensures '_' !in sorted[i]
    {
      assert sorted[i] in multiset(sorted);
    }
    assert |sorted| == |multiset(sorted)| == |multiset(Supported(vs))|;
    FieldsJoin(sorted);
    LexOrder.SortSorted(Supported(vs));
  }

  // ---------------------------------------------------------------------------
  // ExecutePipeline

  /**
   * The jobs a pipeline is built from: a producer that sends fixed values and
   * ignores its input (the caller's first job), and the three stages of this file.
   */
  datatype Job = Producer(values: seq<Value>) | SingleHashJob | MultiHashJob | CombineResultsJob

  function SingleHashFn(h: Hashers): string -> string {
    v => SingleHash(h, v)
  }

  function MultiHashFn(h: Hashers): string -> string {
    v => MultiHashOf(h, v)
  }

  /** What a job sends on its output channel, listed in one particular completion order. */
  function JobOutputs(h: Hashers, job: Job, ins: seq<Value>): seq<Value> {
    match job
    case Producer(values) => values
    case SingleHashJob => StageOutputs(SingleHashFn(h), ins)
    case MultiHashJob => StageOutputs(MultiHashFn(h), ins)
    case CombineResultsJob => [Str(Combined(ins))]
  }

  /** outs is what the job may send on its output channel, in some completion order. */
  ghost predicate IsJobRun(h: Hashers, job: Job, ins: seq<Value>, outs: seq<Value>) {
    multiset(outs) == multiset(JobOutputs(h, job, ins))
  }

  /**
   * queues[i] is the contents of the channel job i reads and queues[i + 1] of
   * the one it writes; the first channel is never written to.
   */
  ghost predicate IsPipelineRun(h: Hashers, jobs: seq<Job>, queues: seq<seq<Value>>) {
    |queues| == |jobs| + 1 &&
    queues[0] == [] &&
    forall i :: 0 <= i < |jobs| ==> IsJobRun(h, jobs[i], queues[i], queues[i + 1])
  }

  /**
   * ExecutePipeline: each job reads the channel the previous job writes.
   * The queues returned are those of the run in which every stage's
   * goroutines finish in input order.
   */
  method ExecutePipeline(h: Hashers, jobs: seq<Job>) returns (queues: seq<seq<Value>>)
    ensures IsPipelineRun(h, jobs, queues)
    ensures forall i :: 0 <= i < |jobs| ==> queues[i + 1] == JobOutputs(h, jobs[i], queues[i])
  {
    var inQueue: seq<Value> := [];
    queues := [inQueue];
    for i := 0 to |jobs|
      invariant |queues| == i + 1 && queues[0] == [] && queues[i] == inQueue
      invariant forall j :: 0 <= j < i ==> queues[j + 1] == JobOutputs(h, jobs[j], queues[j])
    {
      var outQueue := JobOutputs(h, jobs[i], inQueue);
      queues := queues + [outQueue];
      inQueue := outQueue;
    }
  }

  /** Every job maps rearranged input to rearranged output. */
  lemma JobPermutation(h: Hashers, job: Job, a: seq<Value>, b: seq<Value>)
    requires multiset(a) == multiset(b)
    ensures multiset(JobOutputs(h, job, a)) == multiset(JobOutputs(h, job, b))
  {
    match job
    case Producer(_) =>
    case SingleHashJob =>
      FilterMapPermutation(Convert, a, b);
      FilterMapPermutation(Emit(SingleHashFn(h)), Supported(a), Supported(b));
    case MultiHashJob =>
      FilterMapPermutation(Convert, a, b);
      FilterMapPermutation(Emit(MultiHashFn(h)), Supported(a), Supported(b));
    case CombineResultsJob =>
      CombinedPermutationInvariant(a, b);
  }

  lemma SingletonMultiset(q: seq<Value>, x: Value)
    requires multiset(q) == multiset{x}
    ensures q == [x]
  {
    assert |q| == |multiset(q)| == 1;
    assert q[0] in multiset(q);
  }

  /**
   * Whatever order the goroutines finish in, every channel carries the same
   * multiset of values; and when the last job is CombineResults, the final
   * channel's contents are identical.
   */
  lemma {:induction false} PipelineDeterministic(h: Hashers, jobs: seq<Job>, q1: seq<seq<Value>>, q2: seq<seq<Value>>)
    requires IsPipelineRun(h, jobs, q1) && IsPipelineRun(h, jobs, q2)
    ensures forall i :: 0 <= i <= |jobs| ==> multiset(q1[i]) == multiset(q2[i])
    ensures |jobs| > 0 && jobs[|jobs| - 1] == CombineResultsJob ==> q1[|jobs|] == q2[|jobs|]
  {
    var i := 0;
    while i < |jobs|
      invariant 0 <= i <= |jobs|
      invariant forall j :: 0 <= j <= i ==> multiset(q1[j]) == multiset(q2[j])
    {
      assert IsJobRun(h, jobs[i], q1[i], q1[i + 1]) && IsJobRun(h, jobs[i], q2[i], q2[i + 1]);
      JobPermutation(h, jobs[i], q1[i], q2[i]);
      i := i + 1;
    }
    var n := |jobs|;
    if n > 0 && jobs[n - 1] == CombineResultsJob {
      assert IsJobRun(h, jobs[n - 1], q1[n - 1], q1[n]) && IsJobRun(h, jobs[n - 1], q2[n - 1], q2[n]);
      CombinedPermutationInvariant(q1[n - 1], q2[n - 1]);
      SingletonMultiset(q1[n], Str(Combined(q1[n - 1])));
      SingletonMultiset(q2[n], Str(Combined(q2[n - 1])));
    }
  }

  // ---------------------------------------------------------------------------
  // The signer pipeline: producer, SingleHash, MultiHash, CombineResults

  function SignerJobs(values: seq<Value>): seq<Job> {
    [Producer(values), SingleHashJob, MultiHashJob, CombineResultsJob]
  }

  /** The signature of a stream: each accepted value's MultiHash of SingleHash, sorted, joined with "_". */
  function SignerResult(h: Hashers, values: seq<Value>): string {
    Join(LexOrder.Sort(Hashed(MultiHashFn(h), Hashed(SingleHashFn(h), Supported(values)))))
  }

  /** Every run of the signer pipeline ends with exactly one value, the signature of its input. */
  lemma SignerPipelineResult(h: Hashers, values: seq<Value>, queues: seq<seq<Value>>)
    requires IsPipelineRun(h, SignerJobs(values), queues)
    ensures queues[4] == [Str(SignerResult(h, values))]
  {
    var jobs := SignerJobs(values);
    assert IsJobRun(h, jobs[0], queues[0], queues[1]);
    assert IsJobRun(h, jobs[1], queues[1], queues[2]);
    assert IsJobRun(h, jobs[2], queues[2], queues[3]);
    assert IsJobRun(h, jobs[3], queues[3], queues[4]);
    var single := StageOutputs(SingleHashFn(h), values);
    JobPermutation(h, SingleHashJob, queues[1], values);
    assert multiset(queues[2]) == multiset(single);
    JobPermutation(h, MultiHashJob, queues[2], single);
    var multi := StageOutputs(MultiHashFn(h), single);
    assert multiset(queues[3]) == multiset(multi);
    CombinedPermutationInvariant(queues[3], multi);
    SupportedStageOutputs(SingleHashFn(h), Supported(values));
    SupportedStageOutputs(MultiHashFn(h), Supported(single));
    SingletonMultiset(queues[4], Str(Combined(queues[3])));
  }

  /** The signature depends only on the multiset of input values, not on their order. */
  lemma SignerOrderIndependent(h: Hashers, a: seq<Value>, b: seq<Value>)
    requires multiset(a) == multiset(b)
    ensures SignerResult(h, a) == SignerResult(h, b)
  {
    FilterMapPermutation(Convert, a, b);
    FilterMapPermutation(Hash(SingleHashFn(h)), Supported(a), Supported(b));
    FilterMapPermutation(Hash(MultiHashFn(h)), Hashed(SingleHashFn(h), Supported(a)), Hashed(SingleHashFn(h), Supported(b)));
    LexOrder.SortPermutationInvariant(
      Hashed(MultiHashFn(h), Hashed(SingleHashFn(h), Supported(a))),
      Hashed(MultiHashFn(h), Hashed(SingleHashFn(h), Supported(b))));
  }

  /** A value that is neither a string nor an int, anywhere in the stream, does not change the signature. */
  lemma SignerIgnoresUnsupported(h: Hashers, a: seq<Value>, kind: string, b: seq<Value>)
    ensures SignerResult(h, a + [Unsupported(kind)] + b) == SignerResult(h, a + b)
  {
    SupportedElement(a, Unsupported(kind), b);
  }

  /** An int contributes exactly as the string of its decimal digits would. */
  lemma SignerIntAsText(h: Hashers, a: seq<Value>, n: int, b: seq<Value>)
    ensures SignerResult(h, a + [Int(n)] + b) == SignerResult(h, a + [Str(Decimal.Itoa(n))] + b)
  {
    SupportedElement(a, Int(n), b);
    SupportedElement(a, Str(Decimal.Itoa(n)), b);
  }

  lemma HashedPair(f: string -> string, x: string, y: string)
    ensures Hashed(f, [x, y]) == [f(x), f(y)]
  {
    assert [x, y][..1] == [x];
    assert [x][..0] == [];
    assert Hash(f)(x) == Some(f(x));
    assert Hash(f)(y) == Some(f(y));
    assert FilterMap(Hash(f), [x]) == [f(x)];
  }

  lemma JoinPair(a: string, b: string)
    ensures Join([a, b]) == a + "_" + b
  {
    assert [a, b][..1] == [a];
  }

  /** Two inputs: the two expanded hashes, smaller first, with one "_" between them. */
  lemma SignerTwoValues(h: Hashers, x: string, y: string)
    ensures var hx := MultiHashOf(h, SingleHash(h, x));
            var hy := MultiHashOf(h, SingleHash(h, y));
            SignerResult(h, [Str(x), Str(y)]) == if LexOrder.LessEq(hx, hy) then hx + "_" + hy else hy + "_" + hx
  {
    assert Supported([Str(x), Str(y)]) == [x, y] by {
      assert [Str(x), Str(y)][..1] == [Str(x)];
      assert [Str(x)][..0] == [];
      assert Convert(Str(x)) == Some(x) && Convert(Str(y)) == Some(y);
      assert FilterMap(Convert, [Str(x)]) == [x];
    }
    var sx, sy := SingleHash(h, x), SingleHash(h, y);
    HashedPair(SingleHashFn(h), x, y);
    assert SingleHashFn(h)(x) == sx && SingleHashFn(h)(y) == sy;
    var hx, hy := MultiHashOf(h, sx), MultiHashOf(h, sy);
    HashedPair(MultiHashFn(h), sx, sy);
    assert MultiHashFn(h)(sx) == hx && MultiHashFn(h)(sy) == hy;
    LexOrder.SortPair(hx, hy);
    JoinPair(hx, hy);
    JoinPair(hy, hx);
  }
}
