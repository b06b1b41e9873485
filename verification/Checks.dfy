/** The two checks pb_decode_noinit makes over a whole message: fixed-count arrays and required fields. */
module Checks {
  import opened Wire
  import opened Descriptor
  import opened DecodeSpec

  // ------------------------------------------------------------------ required fields

  /** The declared fields that occur in the part of `s` the loop reads. */
  function Occurring(t: seq<Field>, st: State, s: bytes): set<nat>
    decreases |s|
  {
    var key := DecVarint32(s);
    if s == [] || key.Fail? || key.value == 0 then {}
    else
      var r := Step(t, st, key.value / 8, key.value % 8, key.rest);
      if r.Fail? then {}
      else
        var i := Find(t, key.value / 8);
        (if i.Some? then {i.value} else {}) + Occurring(t, r.value, r.rest)
  }

  lemma FieldSees(t: seq<Field>, st: State, i: nat, wireType: nat, s: bytes)
    requires i < |t| && DecField(t, st, i, wireType, s).Ok?
    ensures DecField(t, st, i, wireType, s).value.seen == st.seen + if t[i].htype.Required? then {i} else {}
  {
    hide DecValue, DecPacked, DecVarint32, Put, At, InitialValue, Store;
  }

  lemma {:induction false} SeenIsOccurring(t: seq<Field>, st: State, s: bytes)
    requires Loop(t, st, s).Ok?
    ensures Loop(t, st, s).value.seen == st.seen + set i | i in Occurring(t, st, s) && i < |t| && t[i].htype.Required?
    decreases |s|
  {
    hide DecVarint32, DecField, SkipField;
    var key := DecVarint32(s);
    if s == [] || key.value == 0 {
    } else {
      var tag := key.value / 8;
      var r := Step(t, st, tag, key.value % 8, key.rest);
      var i := Find(t, tag);
      if i.Some? { FieldSees(t, Enter(t, st, i.value).value, i.value, key.value % 8, key.rest); }
      SeenIsOccurring(t, r.value, r.rest);
    }
  }

  /** When nothing else is wrong, decoding succeeds exactly if each of the first 64 required fields of the
      table occurs in the input. */
  lemma RequiredCheckExact(t: seq<Field>, m: seq<Slot>, s: bytes)
    requires Loop(t, Start(m), s).Ok? && FixedDone(t, Loop(t, Start(m), s).value)
    ensures DecodeNoInit(t, m, s).Ok? <==>
      forall i :: 0 <= i < |t| && t[i].htype.Required? && RequiredBefore(t, i) < 64 ==> i in Occurring(t, Start(m), s)
  {
    hide Loop, Occurring, FixedDone;
    SeenIsOccurring(t, Start(m), s);
  }

  // ------------------------------------------------------------------ fixed-count arrays

  /** One occurrence of a fixed-count field, with the number of elements it brought. */
  datatype Arrival = Arrival(i: nat, n: nat)

  /** The number of scalars in a packed run. */
  function ScalarCount(f: Field, s: bytes): nat
    decreases |s|
  {
    if s == [] || DecScalar(f, s).Fail? then 0 else 1 + ScalarCount(f, DecScalar(f, s).rest)
  }

  function ElementCount(f: Field, wireType: nat, s: bytes): nat {
    if wireType == 2 && f.ltype.Packable() then
      var k := DecVarint32(s);
      if k.Ok? && k.value <= |k.rest| then ScalarCount(f, k.rest[..k.value]) else 0
    else 1
  }

  /** The decoder without its fixed-count checks: a new field just starts counting anew. */
  function EnterAnyway(t: seq<Field>, st: State, i: nat): State
    requires i < |t|
  {
    if !t[i].FixedCount() || st.fixed == Some(i) then st else st.(fixed := Some(i), fixedCount := 0)
  }

  function StepAnyway(t: seq<Field>, st: State, tag: nat, wireType: nat, s: bytes): (r: Parsed<State>)
    ensures r.Ok? ==> |r.rest| < |s|
  {
    var i := Find(t, tag);
    if i.Some? then DecField(t, EnterAnyway(t, st, i.value), i.value, wireType, s)
    else Step(t, st, tag, wireType, s)
  }

  function LoopAnyway(t: seq<Field>, st: State, s: bytes): (r: Parsed<State>)
    decreases |s|
  {
    if s == [] then Ok(st, [])
    else
      var (key, rest) :- DecVarint32(s);
      if key == 0 then Ok(st, rest)
      else
        var (st', rest') :- StepAnyway(t, st, key / 8, key % 8, rest);
        LoopAnyway(t, st', rest')
  }

  /** The arrivals of fixed-count fields in the part of `s` the loop reads. */
  function Arrivals(t: seq<Field>, st: State, s: bytes): seq<Arrival>
    decreases |s|
  {
    var key := DecVarint32(s);
    if s == [] || key.Fail? || key.value == 0 then []
    else
      var r := StepAnyway(t, st, key.value / 8, key.value % 8, key.rest);
      if r.Fail? then []
      else
        var i := Find(t, key.value / 8);
        var rest := Arrivals(t, r.value, r.rest);
        if i.Some? && t[i.value].FixedCount()
        then [Arrival(i.value, ElementCount(t[i.value], key.value % 8, key.rest))] + rest
        else rest
  }

  /** The entries from `lo` up to `hi` belong to one field, and those next to them do not. */
  predicate MaximalRun(log: seq<Arrival>, lo: nat, hi: nat) {
    && lo < hi <= |log|
    && (forall k :: lo <= k < hi ==> log[k].i == log[lo].i)
    && (lo > 0 ==> log[lo - 1].i != log[lo].i)
    && (hi < |log| ==> log[hi].i != log[lo].i)
  }

  function Elements(log: seq<Arrival>): nat {
    if log == [] then 0 else log[0].n + Elements(log[1..])
  }

  /** Every uninterrupted run of a fixed-count field brought exactly as many elements as its array has.
      Fields of other kinds do not interrupt a run. */
  ghost predicate RunsComplete(t: seq<Field>, log: seq<Arrival>) {
    forall lo: nat, hi: nat :: MaximalRun(log, lo, hi) && log[lo].i < |t| ==>
      Elements(log[lo..hi]) == t[log[lo].i].arraySize
  }

  /** The same, as the decoder finds out: run by run. */
  predicate RunsFrom(t: seq<Field>, i: nat, n: nat, log: seq<Arrival>)
    decreases |log|
  {
    if log == [] then i < |t| ==> n == t[i].arraySize
    else if log[0].i == i then RunsFrom(t, i, n + log[0].n, log[1..])
    else (i < |t| ==> n == t[i].arraySize) && RunsFrom(t, log[0].i, log[0].n, log[1..])
  }

  lemma {:induction false} ElementsConcat(a: seq<Arrival>, b: seq<Arrival>)
    ensures Elements(a + b) == Elements(a) + Elements(b)
  {
    if a == [] {
      assert a + b == b;
    } else {
      assert (a + b)[1..] == a[1..] + b;
      ElementsConcat(a[1..], b);
    }
  }

  /** The length of the run at the start of `log`. */
  function FirstRun(log: seq<Arrival>): (k: nat)
    requires log != []
    ensures MaximalRun(log, 0, k)
  {
    if |log| == 1 || log[1].i != log[0].i then 1
    else
      var k := FirstRun(log[1..]);
      assert forall j :: 1 <= j < k + 1 ==> log[j] == log[1..][j - 1];
      assert k + 1 < |log| ==> log[k + 1] == log[1..][k];
      k + 1
  }

  lemma {:induction false} RunsFromFirst(t: seq<Field>, i: nat, n: nat, log: seq<Arrival>, k: nat)
    requires k <= |log| && (forall j :: 0 <= j < k ==> log[j].i == i) && (k < |log| ==> log[k].i != i)
    ensures RunsFrom(t, i, n, log) <==>
      (i < |t| ==> n + Elements(log[..k]) == t[i].arraySize) &&
      (k < |log| ==> RunsFrom(t, log[k].i, log[k].n, log[k + 1..]))
    decreases k
  {
    if k == 0 {
    } else {
      assert log[1..][k - 1..] == log[k..];
      if k < |log| { assert log[1..][k..] == log[k + 1..]; }
      assert log[..k][1..] == log[1..][..k - 1];
      assert forall j :: 0 <= j < k - 1 ==> log[1..][j] == log[j + 1];
      RunsFromFirst(t, i, n + log[0].n, log[1..], k - 1);
    }
  }

  lemma RunBounds(log: seq<Arrival>, k: nat, lo: nat, hi: nat)
    requires MaximalRun(log, 0, k) && MaximalRun(log, lo, hi)
    ensures (lo == 0 && hi == k) || lo >= k
  {
    // the entries next to either run, to compare them with the runs themselves
    var afterHi := if hi < |log| then log[hi].i else 0;
    var afterK := if k < |log| then log[k].i else 0;
    var beforeLo := if lo > 0 then log[lo - 1].i else 0;
  }

  /** Beyond the first run, the runs of `log` are those of its remainder. */
  lemma RunsSplit(t: seq<Field>, log: seq<Arrival>, k: nat)
    requires MaximalRun(log, 0, k)
    ensures RunsComplete(t, log) <==>
      (log[0].i < |t| ==> Elements(log[..k]) == t[log[0].i].arraySize) && RunsComplete(t, log[k..])
  {
    var tail := log[k..];
    if RunsComplete(t, log) {
      forall lo: nat, hi: nat | MaximalRun(tail, lo, hi) && tail[lo].i < |t|
        ensures Elements(tail[lo..hi]) == t[tail[lo].i].arraySize
      {
        TailRun(log, k, lo, hi);
        SliceOfTail(log, k, lo, hi);
      }
      assert log[0..k] == log[..k];
    }
    if (log[0].i < |t| ==> Elements(log[..k]) == t[log[0].i].arraySize) && RunsComplete(t, tail) {
      forall lo: nat, hi: nat | MaximalRun(log, lo, hi) && log[lo].i < |t|
        ensures Elements(log[lo..hi]) == t[log[lo].i].arraySize
      {
        RunBounds(log, k, lo, hi);
        if lo >= k {
          assert MaximalRun(tail, lo - k, hi - k) by { HeadRun(log, k, lo, hi); }
          SliceOfTail(log, k, lo - k, hi - k);
        } else {
          assert log[0..k] == log[..k];
        }
      }
    }
  }

  lemma SliceOfTail(log: seq<Arrival>, k: nat, lo: nat, hi: nat)
    requires k <= |log| && lo <= hi <= |log| - k
    ensures log[k..][lo..hi] == log[lo + k..hi + k]
  {
  }

  lemma TailRun(log: seq<Arrival>, k: nat, lo: nat, hi: nat)
    requires MaximalRun(log, 0, k) && MaximalRun(log[k..], lo, hi)
    ensures MaximalRun(log, lo + k, hi + k)
  {
    var tail := log[k..];
    assert forall j :: 0 <= j < |tail| ==> tail[j] == log[j + k];
    forall j | lo + k <= j < hi + k ensures log[j].i == log[lo + k].i {
      assert tail[j - k].i == tail[lo].i;
    }
    if lo > 0 { assert tail[lo - 1] == log[lo + k - 1]; }
  }

  lemma HeadRun(log: seq<Arrival>, k: nat, lo: nat, hi: nat)
    requires MaximalRun(log, 0, k) && MaximalRun(log, lo, hi) && lo >= k
    ensures MaximalRun(log[k..], lo - k, hi - k)
  {
    var tail := log[k..];
    assert forall j :: 0 <= j < |tail| ==> tail[j] == log[j + k];
    if hi < |log| { assert tail[hi - k] == log[hi]; }
  }

  lemma {:induction false} RunsAgree(t: seq<Field>, log: seq<Arrival>)
    requires log != []
    ensures RunsFrom(t, log[0].i, log[0].n, log[1..]) <==> RunsComplete(t, log)
    decreases |log|
  {
    hide RunsComplete;
    var k := FirstRun(log);
    var rest := log[1..];
    assert forall j :: 0 <= j < k - 1 ==> rest[j] == log[j + 1];
    RunsFromFirst(t, log[0].i, log[0].n, rest, k - 1);
    assert log[..k] == [log[0]] + rest[..k - 1];
    assert [log[0]][1..] == [];
    ElementsConcat([log[0]], rest[..k - 1]);
    RunsSplit(t, log, k);
    if k < |log| {
      assert rest[k - 1..] == log[k..] && rest[k..] == log[k..][1..];
      RunsAgree(t, log[k..]);
    } else {
      assert log[k..] == [];
      assert RunsComplete(t, []) by { NoRuns(t); }
    }
  }

  lemma NoRuns(t: seq<Field>)
    ensures RunsComplete(t, [])
  {
  }

  lemma {:induction false} PackedCounts(f: Field, a: seq<Value>, count: nat, s: bytes)
    requires DecPacked(f, a, count, s).Some?
    ensures DecPacked(f, a, count, s).value.count == count + ScalarCount(f, s)
    decreases |s|
  {
    hide DecScalar;
    if s == [] {
    } else {
      var r := DecScalar(f, s);
      PackedCounts(f, Store(a, count, r.value), count + 1, r.rest);
    }
  }

  lemma FieldCounts(t: seq<Field>, st: State, i: nat, wireType: nat, s: bytes)
    requires i < |t| && DecField(t, st, i, wireType, s).Ok?
    ensures var st' := DecField(t, st, i, wireType, s).value;
      st'.fixed == st.fixed && st'.fixedCount ==
        if t[i].FixedCount() then st.fixedCount + ElementCount(t[i], wireType, s) else st.fixedCount
  {
    hide DecValue, DecPacked, DecVarint32, Put, At, InitialValue, Store, ScalarCount;
    var k := DecVarint32(s);
    if t[i].FixedCount() && wireType == 2 && t[i].ltype.Packable() {
      PackedCounts(t[i], ItemsOf(At(st.m, i)), st.fixedCount, k.rest[..k.value]);
    }
  }

  /** The run in progress, as far as the state remembers it, and what arrives after it are complete runs. */
  predicate RunsOf(t: seq<Field>, st: State, log: seq<Arrival>) {
    if st.fixed.Some? then RunsFrom(t, st.fixed.value, st.fixedCount, log)
    else log == [] || RunsFrom(t, log[0].i, log[0].n, log[1..])
  }

  /** One turn of the loop with and without the checks. */
  lemma TurnExact(t: seq<Field>, st: State, tag: nat, wireType: nat, s: bytes, log: seq<Arrival>)
    ensures var i, r, r' := Find(t, tag), Step(t, st, tag, wireType, s), StepAnyway(t, st, tag, wireType, s);
      && (r.Ok? ==> r' == r)
      && (r'.Ok? ==>
            var log' := if i.Some? && t[i.value].FixedCount()
                        then [Arrival(i.value, ElementCount(t[i.value], wireType, s))] + log else log;
            RunsOf(t, st, log') <==> r.Ok? && RunsOf(t, r.value, log))
  {
    hide DecField, SkipField, ElementCount, DecVarint32;
    var i := Find(t, tag);
    var r' := StepAnyway(t, st, tag, wireType, s);
    if i.Some? && r'.Ok? { FieldCounts(t, EnterAnyway(t, st, i.value), i.value, wireType, s); }
  }

  lemma NoMoreArrivals(t: seq<Field>, st: State)
    ensures RunsOf(t, st, []) <==> FixedDone(t, st)
  {
  }

  lemma {:induction false} MachineExact(t: seq<Field>, st: State, s: bytes)
    ensures var r, r' := Loop(t, st, s), LoopAnyway(t, st, s);
      (r.Ok? && FixedDone(t, r.value) <==> r'.Ok? && RunsOf(t, st, Arrivals(t, st, s)))
      && (r.Ok? ==> r' == r)
    decreases |s|
  {
    hide DecVarint32, Step, StepAnyway, ElementCount, RunsOf, FixedDone;
    var key := DecVarint32(s);
    if s != [] && key.Ok? && key.value != 0 {
      var tag, w := key.value / 8, key.value % 8;
      var r := StepAnyway(t, st, tag, w, key.rest);
      if r.Ok? {
        MachineExact(t, r.value, r.rest);
        TurnExact(t, st, tag, w, key.rest, Arrivals(t, r.value, r.rest));
      } else {
        TurnExact(t, st, tag, w, key.rest, []);
      }
    } else {
      NoMoreArrivals(t, st);
    }
  }

  /** The fixed-count state machine accepts exactly the inputs in which every run of every fixed-count
      field is complete: with the checks removed the input is accepted, and no run is short or long. */
  lemma FixedCountExact(t: seq<Field>, m: seq<Slot>, s: bytes)
    ensures var r, r' := Loop(t, Start(m), s), LoopAnyway(t, Start(m), s);
      (r.Ok? && FixedDone(t, r.value) <==> r'.Ok? && RunsComplete(t, Arrivals(t, Start(m), s)))
      && (r.Ok? ==> r' == r)
  {
    hide Loop, LoopAnyway, Arrivals, RunsFrom, RunsComplete;
    MachineExact(t, Start(m), s);
    var log := Arrivals(t, Start(m), s);
    if log != [] { RunsAgree(t, log); } else { NoRuns(t); }
  }

  /** On success every fixed-count field that occurs got exactly array_size elements in each run. */
  lemma FixedCountComplete(t: seq<Field>, m: seq<Slot>, s: bytes)
    requires DecodeNoInit(t, m, s).Ok?
    ensures RunsComplete(t, Arrivals(t, Start(m), s))
  {
    hide Loop, LoopAnyway, Arrivals, RunsComplete;
    FixedCountExact(t, m, s);
  }
}
