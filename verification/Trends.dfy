/** The four trend series of the node page (src/templates/node_detail.html): every push
    appends a point to each and then drops what is too old or too many from the front. */
module Trends {
  import opened Options

  const WINDOW_MS := 600000
  const MAX_SAMPLES := 180

  datatype Point = Point(x: int, y: Option<real>)

  datatype Values = Values(cpu: Option<real>, heap: Option<real>, ram: Option<real>, disk: Option<real>)

  /** One push: the time and the four values. */
  datatype Sample = Sample(time: int, values: Values)

  datatype Series = Cpu | Heap | Ram | Disk

  function PointOf(s: Sample, series: Series): Point {
    Point(s.time, match series
                  case Cpu => s.values.cpu case Heap => s.values.heap
                  case Ram => s.values.ram case Disk => s.values.disk)
  }

  function Column(samples: seq<Sample>, series: Series): (r: seq<Point>)
    ensures |r| == |samples|
  {
    if samples == [] then [] else [PointOf(samples[0], series)] + Column(samples[1..], series)
  }

  lemma {:induction false} ColumnSnoc(samples: seq<Sample>, s: Sample, series: Series)
    ensures Column(samples + [s], series) == Column(samples, series) + [PointOf(s, series)]
  {
    if samples == [] {
      assert samples + [s] == [s];
    } else {
      ColumnSnoc(samples[1..], s, series);
      assert (samples + [s])[1..] == samples[1..] + [s];
    }
  }

  /** The longest end of the list with no sample before `cutoff` and at most `n` samples. */
  function Window(samples: seq<Sample>, cutoff: int, n: nat): seq<Sample>
    decreases |samples|
  {
    if samples == [] || n == 0 || samples[|samples| - 1].time < cutoff then []
    else Window(samples[..|samples| - 1], cutoff, n - 1) + [samples[|samples| - 1]]
  }

  /** The samples are in order of time, and none is later than `t`. */
  predicate UpTo(samples: seq<Sample>, t: int) {
    samples == [] ||
    (samples[|samples| - 1].time <= t && UpTo(samples[..|samples| - 1], samples[|samples| - 1].time))
  }

  lemma WindowSnoc(front: seq<Sample>, last: Sample, cutoff: int, n: nat)
    ensures Window(front + [last], cutoff, n) ==
            if n == 0 || last.time < cutoff then [] else Window(front, cutoff, n - 1) + [last]
  {
    assert (front + [last])[..|front|] == front;
  }

  lemma NoWindow(samples: seq<Sample>, cutoff: int, n: nat)
    ensures Window([], cutoff, n) == []
    ensures samples == [] || n == 0 || samples[|samples| - 1].time < cutoff ==> Window(samples, cutoff, n) == []
  {
  }

  /** What `Window` means: an end of the list that meets both limits, and no longer end does. */
  lemma {:induction false} WindowIsLongest(samples: seq<Sample>, cutoff: int, n: nat, k: nat)
    ensures var w := Window(samples, cutoff, n);
            && |w| <= n && |w| <= |samples| && w == samples[|samples| - |w|..]
            && (forall i :: 0 <= i < |w| ==> w[i].time >= cutoff)
            && (k <= |samples| && k <= n && (forall i :: |samples| - k <= i < |samples| ==> samples[i].time >= cutoff)
                ==> k <= |w|)
  {
    hide Window;
    NoWindow(samples, cutoff, n);
    if samples != [] && n > 0 && samples[|samples| - 1].time >= cutoff {
      var front, last := samples[..|samples| - 1], samples[|samples| - 1];
      WindowIsLongest(front, cutoff, n - 1, if k > 0 then k - 1 else 0);
      assert samples == front + [last];
      WindowSnoc(front, last, cutoff, n);
    }
  }

  /** Narrowing a window gives the window of the whole list. */
  lemma {:induction false} WindowOfWindow(samples: seq<Sample>, cutoff: int, n: nat, cutoff': int, n': nat)
    requires cutoff <= cutoff' && n' <= n
    ensures Window(Window(samples, cutoff, n), cutoff', n') == Window(samples, cutoff', n')
  {
    hide Window;
    if samples != [] && n > 0 && samples[|samples| - 1].time >= cutoff && n' > 0 {
      var front, last := samples[..|samples| - 1], samples[|samples| - 1];
      WindowOfWindow(front, cutoff, n - 1, cutoff', n' - 1);
      assert samples == front + [last];
      WindowSnoc(front, last, cutoff, n);
      WindowSnoc(front, last, cutoff', n');
      WindowSnoc(Window(front, cutoff, n - 1), last, cutoff', n');
    } else {
      NoWindow(samples, cutoff, n);
      NoWindow(samples, cutoff', n');
      NoWindow(Window(samples, cutoff, n), cutoff', n');
    }
  }

  /** A push narrows the window and adds the new sample: older ones need not be looked at. */
  lemma WindowStep(samples: seq<Sample>, s: Sample, cutoff: int, cutoff': int)
    requires cutoff <= cutoff'
    ensures Window(Window(samples, cutoff, MAX_SAMPLES) + [s], cutoff', MAX_SAMPLES)
            == Window(samples + [s], cutoff', MAX_SAMPLES)
  {
    var w := Window(samples, cutoff, MAX_SAMPLES);
    assert (w + [s])[..|w|] == w && (samples + [s])[..|samples|] == samples;
    WindowOfWindow(samples, cutoff, MAX_SAMPLES, cutoff', MAX_SAMPLES - 1);
  }

  /** A first sample that is too old, or one too many, is in no window. */
  lemma {:induction false} FrontDropped(samples: seq<Sample>, cutoff: int, n: nat)
    requires samples != [] && (samples[0].time < cutoff || |samples| > n)
    ensures Window(samples[1..], cutoff, n) == Window(samples, cutoff, n)
  {
    var front := samples[..|samples| - 1];
    if front != [] && n > 0 {
      FrontDropped(front, cutoff, n - 1);
      assert samples[1..][..|samples| - 2] == front[1..];
    }
  }

  /** A list that is in time and short enough is its own window. */
  lemma {:induction false} AllKept(samples: seq<Sample>, cutoff: int, n: nat)
    requires |samples| <= n && forall s :: s in samples ==> s.time >= cutoff
    ensures Window(samples, cutoff, n) == samples
  {
    if samples != [] {
      var front, last := samples[..|samples| - 1], samples[|samples| - 1];
      AllKept(front, cutoff, n - 1);
      assert samples == front + [last];
    }
  }

  lemma {:induction false} OrderedInTime(samples: seq<Sample>, t: int, cutoff: int, s: Sample)
    requires UpTo(samples, t) && s in samples && samples[0].time >= cutoff
    ensures cutoff <= s.time <= t
  {
    var front, last := samples[..|samples| - 1], samples[|samples| - 1];
    assert samples == front + [last];
    if front != [] {
      OrderedInTime(front, last.time, cutoff, front[0]);
      if s in front { OrderedInTime(front, last.time, cutoff, s); }
    }
  }

  lemma {:induction false} WindowUpTo(samples: seq<Sample>, cutoff: int, n: nat, t: int)
    requires UpTo(samples, t)
    ensures UpTo(Window(samples, cutoff, n), t)
  {
    if samples != [] && n > 0 && samples[|samples| - 1].time >= cutoff {
      WindowUpTo(samples[..|samples| - 1], cutoff, n - 1, samples[|samples| - 1].time);
      UpToSnoc(Window(samples[..|samples| - 1], cutoff, n - 1), samples[|samples| - 1], t);
    }
  }

  lemma UpToSnoc(samples: seq<Sample>, s: Sample, t: int)
    ensures UpTo(samples + [s], t) <==> s.time <= t && UpTo(samples, s.time)
  {
    assert (samples + [s])[..|samples|] == samples;
  }

  // ----- what the two loops leave, whatever the clock does

  function DropOld(samples: seq<Sample>, cutoff: int): (r: seq<Sample>)
    ensures r != [] ==> r[0].time >= cutoff
  {
    if samples == [] || samples[0].time >= cutoff then samples else DropOld(samples[1..], cutoff)
  }

  function LastOf(samples: seq<Sample>, n: nat): (r: seq<Sample>)
    ensures |r| <= n
  {
    if |samples| > n then samples[|samples| - n..] else samples
  }

  function Trimmed(samples: seq<Sample>, cutoff: int): seq<Sample> {
    LastOf(DropOld(samples, cutoff), MAX_SAMPLES)
  }

  lemma {:induction false} DropOldWindow(samples: seq<Sample>, cutoff: int, n: nat)
    ensures Window(DropOld(samples, cutoff), cutoff, n) == Window(samples, cutoff, n)
  {
    if samples != [] && samples[0].time < cutoff {
      DropOldWindow(samples[1..], cutoff, n);
      FrontDropped(samples, cutoff, n);
    }
  }

  lemma {:induction false} LastOfWindow(samples: seq<Sample>, cutoff: int, n: nat)
    ensures Window(LastOf(samples, n), cutoff, n) == Window(samples, cutoff, n)
    decreases |samples|
  {
    if |samples| > n {
      LastOfWindow(samples[1..], cutoff, n);
      FrontDropped(samples, cutoff, n);
      assert LastOf(samples[1..], n) == LastOf(samples, n);
    }
  }

  /** Trimming never drops a sample of the window; what it leaves is the window if none of
      it is too old. */
  lemma TrimmedExactly(samples: seq<Sample>, cutoff: int)
    ensures var w, r := Window(samples, cutoff, MAX_SAMPLES), Trimmed(samples, cutoff);
            && |w| <= |r| <= MAX_SAMPLES && w == r[|r| - |w|..]
            && (r == w <==> forall s :: s in r ==> s.time >= cutoff)
  {
    var w, r := Window(samples, cutoff, MAX_SAMPLES), Trimmed(samples, cutoff);
    DropOldWindow(samples, cutoff, MAX_SAMPLES);
    LastOfWindow(DropOld(samples, cutoff), cutoff, MAX_SAMPLES);
    WindowIsLongest(r, cutoff, MAX_SAMPLES, 0);
    if forall s :: s in r ==> s.time >= cutoff { AllKept(r, cutoff, MAX_SAMPLES); }
  }

  /** The first loop stops at the first sample that is not too old. */
  lemma {:induction false} DropOldFrom(samples: seq<Sample>, cutoff: int) returns (f: nat)
    ensures f <= |samples| && DropOld(samples, cutoff) == samples[f..]
    ensures forall i :: 0 <= i < f ==> samples[i].time < cutoff
    ensures f < |samples| ==> samples[f].time >= cutoff
  {
    f := 0;
    if samples != [] && samples[0].time < cutoff {
      var g := DropOldFrom(samples[1..], cutoff);
      f := g + 1;
      assert samples[1..][g..] == samples[f..];
      forall i | 0 <= i < f ensures samples[i].time < cutoff {
        if i > 0 { assert samples[i] == samples[1..][i - 1]; }
      }
    }
  }

  /** What is left is an end of the list: it begins at the first sample in time, or later
      if there are too many. */
  lemma TrimmedFrom(samples: seq<Sample>, cutoff: int) returns (f: nat, lo: nat)
    ensures f <= lo <= |samples| && Trimmed(samples, cutoff) == samples[lo..]
    ensures lo == if |samples| - MAX_SAMPLES > f then |samples| - MAX_SAMPLES else f
    ensures forall i :: 0 <= i < f ==> samples[i].time < cutoff
    ensures f < |samples| ==> samples[f].time >= cutoff
  {
    f := DropOldFrom(samples, cutoff);
    lo := if |samples| - MAX_SAMPLES > f then |samples| - MAX_SAMPLES else f;
    assert |samples[f..]| == |samples| - f;
    assert samples[f..][lo - f..] == samples[lo..];
    assert lo == f ==> samples[f..] == samples[lo..];
  }

  /** None of the last samples that is too old comes after one that is in time. */
  ghost predicate NoneShielded(samples: seq<Sample>, cutoff: int) {
    forall i, j :: 0 <= i < j < |samples| && |samples| - MAX_SAMPLES <= j && samples[i].time >= cutoff ==>
      samples[j].time >= cutoff
  }

  lemma AllInTime(samples: seq<Sample>, cutoff: int, lo: nat)
    requires lo <= |samples|
    ensures (forall s :: s in samples[lo..] ==> s.time >= cutoff) <==>
            (forall j :: lo <= j < |samples| ==> samples[j].time >= cutoff)
  {
    forall j | lo <= j < |samples| ensures samples[j] in samples[lo..] { assert samples[lo..][j - lo] == samples[j]; }
  }

  lemma ShieldedFrom(samples: seq<Sample>, cutoff: int, f: nat, lo: nat)
    requires f <= lo <= |samples| && lo == if |samples| - MAX_SAMPLES > f then |samples| - MAX_SAMPLES else f
    requires forall i :: 0 <= i < f ==> samples[i].time < cutoff
    requires f < |samples| ==> samples[f].time >= cutoff
    ensures NoneShielded(samples, cutoff) <==> forall j :: lo <= j < |samples| ==> samples[j].time >= cutoff
  {
  }

  /** Trimming leaves exactly the window if and only if, in the list it is given, no old
      sample among the last 180 has one that is in time anywhere before it. */
  lemma TrimmedIsWindow(samples: seq<Sample>, cutoff: int)
    ensures Trimmed(samples, cutoff) == Window(samples, cutoff, MAX_SAMPLES) <==> NoneShielded(samples, cutoff)
  {
    hide Trimmed, Window, NoneShielded;
    TrimmedExactly(samples, cutoff);
    var f, lo := TrimmedFrom(samples, cutoff);
    AllInTime(samples, cutoff, lo);
    ShieldedFrom(samples, cutoff, f, lo);
  }

  /** Samples in order of time are trimmed to their window. */
  lemma TrimmedInOrder(samples: seq<Sample>, cutoff: int, t: int)
    requires UpTo(samples, t)
    ensures Trimmed(samples, cutoff) == Window(samples, cutoff, MAX_SAMPLES)
  {
    DropOldUpTo(samples, cutoff, t);
    var rest := DropOld(samples, cutoff);
    forall s | s in Trimmed(samples, cutoff) ensures s.time >= cutoff { OrderedInTime(rest, t, cutoff, s); }
    TrimmedExactly(samples, cutoff);
  }

  lemma {:induction false} DropOldUpTo(samples: seq<Sample>, cutoff: int, t: int)
    requires UpTo(samples, t)
    ensures UpTo(DropOld(samples, cutoff), t)
  {
    if samples != [] && samples[0].time < cutoff {
      UpToTail(samples, t);
      DropOldUpTo(samples[1..], cutoff, t);
    }
  }

  lemma {:induction false} UpToTail(samples: seq<Sample>, t: int)
    requires samples != [] && UpTo(samples, t)
    ensures UpTo(samples[1..], t)
  {
    if |samples| > 1 {
      UpToTail(samples[..|samples| - 1], samples[|samples| - 1].time);
      assert samples[1..][..|samples| - 2] == samples[..|samples| - 1][1..];
    }
  }

  // ----- whole series of pushes

  /** The clock is read for the new points and again for the trimming. */
  datatype Push = Push(values: Values, now: int, later: int)

  function SampleOf(p: Push): Sample {
    Sample(p.now, p.values)
  }

  function Samples(log: seq<Push>): seq<Sample> {
    if log == [] then [] else Samples(log[..|log| - 1]) + [SampleOf(log[|log| - 1])]
  }

  /** What is kept after a series of pushes. */
  function KeptOf(log: seq<Push>): seq<Sample> {
    if log == [] then []
    else
      var last := log[|log| - 1];
      Trimmed(KeptOf(log[..|log| - 1]) + [SampleOf(last)], last.later - WINDOW_MS)
  }

  /** The clock never goes back. */
  predicate Steady(log: seq<Push>) {
    log == [] ||
    (var front, last := log[..|log| - 1], log[|log| - 1];
     last.now <= last.later && Steady(front) && (front == [] || front[|front| - 1].later <= last.now))
  }

  /** As long as the clock does not go back, the series hold the window of everything
      pushed: trimming what was kept is as good as trimming it all. */
  lemma {:induction false} SteadyKeepsWindow(log: seq<Push>)
    requires log != [] && Steady(log)
    ensures var t := log[|log| - 1].later;
            UpTo(Samples(log), t) && KeptOf(log) == Window(Samples(log), t - 600000, 180)
  {
    var front, last := log[..|log| - 1], log[|log| - 1];
    var before, s := Samples(front), SampleOf(last);
    if front == [] {
      SteadyStep(before, s, last.now, last.later);
    } else {
      SteadyKeepsWindow(front);
      SteadyStep(before, s, front[|front| - 1].later, last.later);
    }
  }

  lemma SteadyStep(before: seq<Sample>, s: Sample, t: int, later: int)
    requires UpTo(before, t) && t <= s.time <= later
    ensures var kept := Window(before, t - WINDOW_MS, MAX_SAMPLES) + [s];
            && UpTo(before + [s], later)
            && Trimmed(kept, later - WINDOW_MS) == Window(before + [s], later - WINDOW_MS, MAX_SAMPLES)
  {
    var kept := Window(before, t - WINDOW_MS, MAX_SAMPLES);
    WindowUpTo(before, t - WINDOW_MS, MAX_SAMPLES, t);
    WindowStep(before, s, t - WINDOW_MS, later - WINDOW_MS);
    TrimmedInOrder(kept + [s], later - WINDOW_MS, later);
  }

  /** When the clock has been set back, a sample from the future in front shields old ones
      behind it from being dropped. */
  lemma ClockSetBack(v: Values)
    ensures var late, past, present := Sample(1000000, v), Sample(0, v), Sample(700000, v);
            && Trimmed([late, past, present], 700000 - WINDOW_MS) == [late, past, present]
            && past.time < 700000 - WINDOW_MS
            && !NoneShielded([late, past, present], 700000 - WINDOW_MS)
  {
    var samples := [Sample(1000000, v), Sample(0, v), Sample(700000, v)];
    assert samples[0].time >= 700000 - WINDOW_MS && samples[1].time < 700000 - WINDOW_MS;
  }

  predicate Shifted(all: seq<Point>, rest: seq<Point>, n: nat) {
    n <= |all| && rest == all[n..]
  }

  lemma ShiftOnce(all: seq<Point>, rest: seq<Point>, n: nat)
    requires Shifted(all, rest, n) && rest != []
    ensures Shifted(all, rest[1..], n + 1)
  {
  }

  /** `n` points may go from the front: each is older than ten minutes or one of more than 180. */
  predicate MayGo(all: seq<Point>, n: nat, now: int) {
    n <= |all| && forall i :: 0 <= i < n ==> all[i].x < now - 600000 || i < |all| - 180
  }

  /** `historyData`; the ghost field records the pushes since the last clear. */
  class HistoryData {
    var cpu: seq<Point>
    var heap: seq<Point>
    var ram: seq<Point>
    var disk: seq<Point>
    ghost var log: seq<Push>

    ghost predicate Holds(samples: seq<Sample>)
      reads this
    {
      cpu == Column(samples, Cpu) && heap == Column(samples, Heap)
      && ram == Column(samples, Ram) && disk == Column(samples, Disk)
    }

    /** The four series hold, sample by sample, what the pushes have left. */
    ghost predicate Valid()
      reads this
    {
      Holds(KeptOf(log))
    }

    constructor ()
      ensures Valid() && log == []
    {
      cpu, heap, ram, disk := [], [], [], [];
      log := [];
    }

    method Append(values: Values, now: int, ghost samples: seq<Sample>)
      requires Holds(samples)
      modifies `cpu, `heap, `ram, `disk
      ensures Holds(samples + [Sample(now, values)])
      ensures cpu == old(cpu) + [Point(now, values.cpu)] && heap == old(heap) + [Point(now, values.heap)]
      ensures ram == old(ram) + [Point(now, values.ram)] && disk == old(disk) + [Point(now, values.disk)]
    {
      ghost var s := Sample(now, values);
      ColumnSnoc(samples, s, Cpu);
      ColumnSnoc(samples, s, Heap);
      ColumnSnoc(samples, s, Ram);
      ColumnSnoc(samples, s, Disk);
      cpu := cpu + [Point(now, values.cpu)];
      heap := heap + [Point(now, values.heap)];
      ram := ram + [Point(now, values.ram)];
      disk := disk + [Point(now, values.disk)];
    }

    method Shift(ghost samples: seq<Sample>, ghost c: seq<Point>, ghost h: seq<Point>, ghost r: seq<Point>,
                 ghost d: seq<Point>, ghost n: nat)
      requires samples != [] && Holds(samples) && Left(c, h, r, d, n)
      modifies `cpu, `heap, `ram, `disk
      ensures Holds(samples[1..]) && Left(c, h, r, d, n + 1) && |cpu| == |old(cpu)| - 1
    {
      ShiftOnce(c, cpu, n);
      ShiftOnce(h, heap, n);
      ShiftOnce(r, ram, n);
      ShiftOnce(d, disk, n);
      cpu, heap, ram, disk := cpu[1..], heap[1..], ram[1..], disk[1..];
    }

    /** The four series are what is left of `c`, `h`, `r` and `d` without the first `n` points. */
    ghost predicate Left(c: seq<Point>, h: seq<Point>, r: seq<Point>, d: seq<Point>, n: nat)
      reads this
    {
      Shifted(c, cpu, n) && Shifted(h, heap, n) && Shifted(r, ram, n) && Shifted(d, disk, n)
    }

    /** The two loops; all four series are shifted as the first one says. */
    method TrimHistory(now: int, ghost samples: seq<Sample>) returns (ghost n: nat)
      requires Holds(samples)
      modifies `cpu, `heap, `ram, `disk
      ensures Holds(Trimmed(samples, now - WINDOW_MS))
      ensures Left(old(cpu), old(heap), old(ram), old(disk), n) && MayGo(old(cpu), n, now)
      ensures |cpu| <= 180 && (0 < |cpu| < 180 ==> cpu[0].x >= now - 600000)
    {
      var cutoff := now - WINDOW_MS;
      ghost var rest := samples;
      n := 0;
      while |cpu| > 0 && cpu[0].x < cutoff
        invariant Holds(rest) && DropOld(rest, cutoff) == DropOld(samples, cutoff)
        invariant Left(old(cpu), old(heap), old(ram), old(disk), n) && MayGo(old(cpu), n, now)
        decreases |cpu|
      {
        Shift(rest, old(cpu), old(heap), old(ram), old(disk), n);
        rest, n := rest[1..], n + 1;
      }
      assert rest == DropOld(samples, cutoff);
      ghost var inTime := rest;
      while |cpu| > MAX_SAMPLES
        invariant Holds(rest) && LastOf(rest, MAX_SAMPLES) == LastOf(inTime, MAX_SAMPLES)
        invariant Left(old(cpu), old(heap), old(ram), old(disk), n) && MayGo(old(cpu), n, now)
        invariant |cpu| >= MAX_SAMPLES || (|cpu| > 0 ==> cpu[0].x >= cutoff)
        decreases |cpu|
      {
        Shift(rest, old(cpu), old(heap), old(ram), old(disk), n);
        assert LastOf(rest[1..], MAX_SAMPLES) == LastOf(rest, MAX_SAMPLES);
        rest, n := rest[1..], n + 1;
      }
    }

    /** Every series gets its own value, and all lose as many points in front: those too old
        or too many. */
    method PushPoint(values: Values, now: int, later: int) returns (ghost n: nat)
      requires Valid()
      modifies this
      ensures Valid() && log == old(log) + [Push(values, now, later)]
      ensures Shifted(old(cpu) + [Point(now, values.cpu)], cpu, n)
      ensures Shifted(old(heap) + [Point(now, values.heap)], heap, n)
      ensures Shifted(old(ram) + [Point(now, values.ram)], ram, n)
      ensures Shifted(old(disk) + [Point(now, values.disk)], disk, n)
      ensures MayGo(old(cpu) + [Point(now, values.cpu)], n, later)
      ensures |cpu| <= 180 && (0 < |cpu| < 180 ==> cpu[0].x >= later - 600000)
    {
      ghost var p := Push(values, now, later);
      Append(values, now, KeptOf(log));
      n := TrimHistory(later, KeptOf(log) + [SampleOf(p)]);
      assert (log + [p])[..|log|] == log;
      log := log + [p];
    }

    method ClearTrends()
      requires Valid()
      modifies this
      ensures Valid() && log == []
    {
      cpu, heap, ram, disk := [], [], [], [];
      log := [];
    }
  }
}
