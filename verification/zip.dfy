/** Merging two sequences by time (atom/src/atoms/sequence/zip.rs): a
    `ZipSequence` holds two event iterators and one pending event from each,
    and yields the earlier of the two pending events, the first sequence's on
    a tie. The two iterators are modelled by the events they have yet to
    yield, and a time stamp by its value as an integer.

    As written, once the second sequence has run out while an event of the
    first is pending, `next` yields the second's empty slot, so the zip ends
    early and the first sequence's remaining events are lost. The model keeps
    that `next` as `NextAsWritten` and builds the rest on `Next`, which yields
    the first's pending event there instead. */
module Zip {
  import opened Wrappers

  /** An event: its time stamp's value and its atom. */
  datatype Timed<A> = Timed(time: int, atom: A)

  /** `ZipSequence`: what each iterator has yet to yield, and the pending
      event taken from each. */
  datatype ZipSequence<A> = ZipSequence(first: seq<Timed<A>>, second: seq<Timed<A>>,
                                        fromFirst: Option<Timed<A>>, fromSecond: Option<Timed<A>>)

  /** `ZipSequence::new`: nothing pending yet. */
  function New<A>(first: seq<Timed<A>>, second: seq<Timed<A>>): (z: ZipSequence<A>)
    ensures Pending(z) == (first, second)
  {
    ZipSequence(first, second, None, None)
  }

  /** A pending event in front of what its iterator has yet to yield. */
  function SlotThen<A>(slot: Option<Timed<A>>, rest: seq<Timed<A>>): (s: seq<Timed<A>>)
    ensures |s| == |rest| + (if slot.Some? then 1 else 0)
  {
    if slot.Some? then [slot.value] + rest else rest
  }

  /** The events each side of the zip has yet to yield, pending one first. */
  function Pending<A>(z: ZipSequence<A>): (seq<Timed<A>>, seq<Timed<A>>) {
    (SlotThen(z.fromFirst, z.first), SlotThen(z.fromSecond, z.second))
  }

  /** How many events are left on both sides. */
  function Size<A>(z: ZipSequence<A>): nat {
    |Pending(z).0| + |Pending(z).1|
  }

  /** `next` of an event iterator: the first event, or nothing at the end. */
  function Pop<A>(s: seq<Timed<A>>): (r: (seq<Timed<A>>, Option<Timed<A>>))
    ensures SlotThen(r.1, r.0) == s
    ensures r.1.None? <==> s == []
  {
    if s == [] then (s, None) else (s[1..], Some(s[0]))
  }

  /** The top of `next`: an empty slot takes its iterator's next event. The
      events left on each side do not change, and a slot stays empty only
      when its side is done. */
  function Refill<A>(z: ZipSequence<A>): (r: ZipSequence<A>)
    ensures Pending(r) == Pending(z)
    ensures r.fromFirst.None? ==> r.first == []
    ensures r.fromSecond.None? ==> r.second == []
  {
    var (first, fromFirst) := if z.fromFirst.None? then Pop(z.first) else (z.first, z.fromFirst);
    var (second, fromSecond) := if z.fromSecond.None? then Pop(z.second) else (z.second, z.fromSecond);
    ZipSequence(first, second, fromFirst, fromSecond)
  }

  /** `next`, as evidently intended: the earlier pending event, the first's
      on a tie, or the only one pending; nothing once both sides are done. */
  function Next<A>(z: ZipSequence<A>): (r: (ZipSequence<A>, Option<Timed<A>>))
    ensures r.1.None? <==> Size(z) == 0
    ensures r.1.Some? ==> Size(r.0) == Size(z) - 1
  {
    var r := Refill(z);
    match (r.fromFirst, r.fromSecond)
    case (Some(a), Some(b)) =>
      if a.time <= b.time then (r.(fromFirst := None), Some(a)) else (r.(fromSecond := None), Some(b))
    case (None, Some(b)) => (r.(fromSecond := None), Some(b))
    case (Some(a), None) => (r.(fromFirst := None), Some(a))
    case (None, None) => (r, None)
  }

  /** `next` as written: where the first side has an event pending and the
      second is done, it yields the second's empty slot. Everywhere else it
      is `Next`. */
  function NextAsWritten<A>(z: ZipSequence<A>): (r: (ZipSequence<A>, Option<Timed<A>>))
    ensures r.1.Some? ==> r == Next(z)
  {
    var r := Refill(z);
    if r.fromFirst.Some? && r.fromSecond.None? then (r, None) else Next(z)
  }

  /** `collect()` over `Next`. */
  function Collect<A>(z: ZipSequence<A>): (out: seq<Timed<A>>)
    ensures |out| == Size(z)
    decreases Size(z)
  {
    var (z', e) := Next(z);
    if e.None? then [] else [e.value] + Collect(z')
  }

  /** `collect()` over `NextAsWritten`. */
  function CollectAsWritten<A>(z: ZipSequence<A>): (out: seq<Timed<A>>)
    ensures |out| <= Size(z)
    decreases Size(z)
  {
    var (z', e) := NextAsWritten(z);
    if e.None? then [] else [e.value] + CollectAsWritten(z')
  }

  // ---------------------------------------------------------------------
  // The reference: merging

  /** The stable merge of two event lists by time: on a tie the event of
      `xs` comes first. */
  function Merge<A>(xs: seq<Timed<A>>, ys: seq<Timed<A>>): seq<Timed<A>>
    decreases |xs| + |ys|
  {
    if xs == [] then ys
    else if ys == [] then xs
    else if xs[0].time <= ys[0].time then [xs[0]] + Merge(xs[1..], ys)
    else [ys[0]] + Merge(xs, ys[1..])
  }

  /** The events of `s` never go back in time. */
  predicate Sorted<A>(s: seq<Timed<A>>) {
    forall i, j :: 0 <= i < j < |s| ==> s[i].time <= s[j].time
  }

  /** No event of `s` is earlier than `b`. */
  predicate NotBefore<A>(s: seq<Timed<A>>, b: int) {
    forall i :: 0 <= i < |s| ==> s[i].time >= b
  }

  /** Merging loses no event and adds none. */
  lemma {:induction false} MergeMultiset<A>(xs: seq<Timed<A>>, ys: seq<Timed<A>>)
    ensures multiset(Merge(xs, ys)) == multiset(xs) + multiset(ys)
    decreases |xs| + |ys|
  {
    if xs != [] && ys != [] {
      if xs[0].time <= ys[0].time {
        MergeMultiset(xs[1..], ys);
        assert Merge(xs, ys) == [xs[0]] + Merge(xs[1..], ys);
        assert xs == [xs[0]] + xs[1..];
      } else {
        MergeMultiset(xs, ys[1..]);
        assert Merge(xs, ys) == [ys[0]] + Merge(xs, ys[1..]);
        assert ys == [ys[0]] + ys[1..];
      }
    }
  }

  /** A bound below both lists bounds their merge. */
  lemma {:induction false} MergeNotBefore<A>(xs: seq<Timed<A>>, ys: seq<Timed<A>>, b: int)
    requires NotBefore(xs, b) && NotBefore(ys, b)
    ensures NotBefore(Merge(xs, ys), b)
    decreases |xs| + |ys|
  {
    if xs != [] && ys != [] {
      if xs[0].time <= ys[0].time {
        MergeNotBefore(xs[1..], ys, b);
      } else {
        MergeNotBefore(xs, ys[1..], b);
      }
    }
  }

  /** Merging two lists in time order gives a list in time order. */
  lemma {:induction false} MergeSorted<A>(xs: seq<Timed<A>>, ys: seq<Timed<A>>)
    requires Sorted(xs) && Sorted(ys)
    ensures Sorted(Merge(xs, ys))
    decreases |xs| + |ys|
  {
    if xs != [] && ys != [] {
      if xs[0].time <= ys[0].time {
        MergeSorted(xs[1..], ys);
        MergeNotBefore(xs[1..], ys, xs[0].time);
        SortedCons(xs[0], Merge(xs[1..], ys));
      } else {
        MergeSorted(xs, ys[1..]);
        MergeNotBefore(xs, ys[1..], ys[0].time);
        SortedCons(ys[0], Merge(xs, ys[1..]));
      }
    }
  }

  /** An event in front of a list in time order that starts no earlier. */
  lemma {:induction false} SortedCons<A>(x: Timed<A>, s: seq<Timed<A>>)
    requires Sorted(s) && NotBefore(s, x.time)
    ensures Sorted([x] + s)
  {
    var t := [x] + s;
    forall i, j | 0 <= i < j < |t| ensures t[i].time <= t[j].time {
      assert t[j] == s[j - 1];
      if i > 0 {
        assert t[i] == s[i - 1];
      }
    }
  }

  // ---------------------------------------------------------------------
  // The zip against the reference

  /** The intended zip yields exactly the stable merge of what both sides
      have left, whatever their order. */
  lemma {:induction false} CollectIsMerge<A>(z: ZipSequence<A>)
    ensures Collect(z) == Merge(Pending(z).0, Pending(z).1)
    decreases Size(z)
  {
    var r := Refill(z);
    var (z', e) := Next(z);
    if e.Some? {
      CollectIsMerge(z');
      NextIsMergeStep(z);
    }
  }

  /** One step of `Next` is one step of the merge. */
  lemma {:induction false} NextIsMergeStep<A>(z: ZipSequence<A>)
    requires Next(z).1.Some?
    ensures [Next(z).1.value] + Merge(Pending(Next(z).0).0, Pending(Next(z).0).1) == Merge(Pending(z).0, Pending(z).1)
  {
    var r := Refill(z);
    var (xs, ys) := Pending(z);
    if r.fromFirst.Some? {
      assert xs == [r.fromFirst.value] + r.first && xs[1..] == r.first;
    }
    if r.fromSecond.Some? {
      assert ys == [r.fromSecond.value] + r.second && ys[1..] == r.second;
    }
  }

  /** Zipping two sequences yields every event of both, each as often as it
      occurs, in time order when both sequences are. */
  lemma {:induction false} ZipMerges<A>(first: seq<Timed<A>>, second: seq<Timed<A>>)
    ensures multiset(Collect(New(first, second))) == multiset(first) + multiset(second)
    ensures Sorted(first) && Sorted(second) ==> Sorted(Collect(New(first, second)))
  {
    CollectIsMerge(New(first, second));
    MergeMultiset(first, second);
    if Sorted(first) && Sorted(second) {
      MergeSorted(first, second);
    }
  }

  /** As written, the zip yields a prefix of what it should. */
  lemma {:induction false} AsWrittenIsPrefix<A>(z: ZipSequence<A>)
    ensures var out := CollectAsWritten(z);
            |out| <= |Collect(z)| && out == Collect(z)[..|out|]
    decreases Size(z)
  {
    var (z', e) := NextAsWritten(z);
    if e.Some? {
      AsWrittenIsPrefix(z');
    }
  }

  /** The last event of a non-empty list. */
  function Last<A>(s: seq<Timed<A>>): Timed<A>
    requires s != []
  {
    s[|s| - 1]
  }

  /** As written, the zip still yields the whole merge when the first side is
      in time order and the second side's last event is no earlier than the
      first's: the second side then never runs out while the first has an
      event pending. */
  lemma {:induction false} AsWrittenAgrees<A>(z: ZipSequence<A>)
    requires Sorted(Pending(z).0) && Outlasts(Pending(z).0, Pending(z).1)
    ensures CollectAsWritten(z) == Collect(z)
    decreases Size(z)
  {
    var r := Refill(z);
    var (z', e) := Next(z);
    if e.Some? {
      assert NextAsWritten(z) == Next(z);
      AgreesStep(z);
      AsWrittenAgrees(z');
    }
  }

  /** `AsWrittenAgrees` carries over one step of `Next`. */
  lemma {:induction false} AgreesStep<A>(z: ZipSequence<A>)
    requires Sorted(Pending(z).0) && Outlasts(Pending(z).0, Pending(z).1)
    requires Next(z).1.Some?
    ensures Sorted(Pending(Next(z).0).0) && Outlasts(Pending(Next(z).0).0, Pending(Next(z).0).1)
  {
    var r := Refill(z);
    var (xs, ys) := Pending(z);
    if r.fromFirst.Some? {
      assert xs == [r.fromFirst.value] + r.first;
    }
    if r.fromSecond.Some? {
      assert ys == [r.fromSecond.value] + r.second;
    }
    if r.fromFirst.Some? && (r.fromSecond.None? || r.fromFirst.value.time <= r.fromSecond.value.time) {
      assert Pending(Next(z).0) == (xs[1..], ys);
      TakeFirstAgrees(xs, ys);
    } else {
      assert Pending(Next(z).0) == (xs, ys[1..]);
      TakeSecondAgrees(xs, ys);
    }
  }

  /** The first side does not run past the second: when it has an event
      left, so does the second, and the second's last is no earlier. */
  predicate Outlasts<A>(xs: seq<Timed<A>>, ys: seq<Timed<A>>) {
    xs != [] ==> ys != [] && Last(xs).time <= Last(ys).time
  }

  /** Taking the first side's event keeps it in order and outlasted. */
  lemma {:induction false} TakeFirstAgrees<A>(xs: seq<Timed<A>>, ys: seq<Timed<A>>)
    requires xs != [] && Sorted(xs) && Outlasts(xs, ys)
    ensures Sorted(xs[1..]) && Outlasts(xs[1..], ys)
  {
    assert forall i :: 0 <= i < |xs| - 1 ==> xs[1..][i] == xs[i + 1];
  }

  /** Taking the second side's event, which is earlier than the first's,
      cannot take its last event while the first has one left. */
  lemma {:induction false} TakeSecondAgrees<A>(xs: seq<Timed<A>>, ys: seq<Timed<A>>)
    requires ys != [] && Sorted(xs) && Outlasts(xs, ys)
    requires xs != [] ==> xs[0].time > ys[0].time
    ensures Outlasts(xs, ys[1..])
  {
    if xs != [] {
      assert xs[0].time <= Last(xs).time;
      assert Last(ys[1..]) == Last(ys);
    }
  }

  /** The first side's events after the second side ran out are lost: with
      events at 1 and 9 on the first side and at 3 on the second, the zip as
      written yields 1 and 3 and stops, where the merge goes on to 9. */
  lemma {:induction false} LostEventExample()
    ensures var first := [Timed(1, 10), Timed(9, 90)];
            var second := [Timed(3, 30)];
            CollectAsWritten(New(first, second)) == [Timed(1, 10), Timed(3, 30)] &&
            Collect(New(first, second)) == [Timed(1, 10), Timed(3, 30), Timed(9, 90)]
  {
    var first := [Timed(1, 10), Timed(9, 90)];
    var second := [Timed(3, 30)];
    var z0 := New(first, second);
    var z1 := ZipSequence([], [], None, Some(Timed(3, 30)));
    var z2 := ZipSequence([], [], Some(Timed(9, 90)), None);
    assert Pop(first) == ([Timed(9, 90)], Some(Timed(1, 10)));
    assert Next(z0) == (ZipSequence([Timed(9, 90)], [], None, Some(Timed(3, 30))), Some(Timed(1, 10)));
    var y1 := ZipSequence([Timed(9, 90)], [], None, Some(Timed(3, 30)));
    assert Pop([Timed(9, 90)]) == ([], Some(Timed(9, 90)));
    assert Next(y1) == (z2, Some(Timed(3, 30)));
    assert NextAsWritten(z2) == (z2, None);
    assert Next(z2) == (ZipSequence([], [], None, None), Some(Timed(9, 90)));
    var z3: ZipSequence<int> := ZipSequence([], [], None, None);
    assert Next(z3).1 == None;
  }

  /** The test of zip.rs: frames 1, 2, 5, 6 on the first side and 3, 4, 5, 8
      on the second zip to 1, 2, 3, 4, 5 (the first side's), 5 (the
      second's), 6, 8. The test cannot see the early end: its second side
      ends last. */
  lemma {:induction false} ZipExample()
    ensures var first := [Timed(1, 10), Timed(2, 20), Timed(5, 50), Timed(6, 60)];
            var second := [Timed(3, 30), Timed(4, 40), Timed(5, 55), Timed(8, 80)];
            var merged := [Timed(1, 10), Timed(2, 20), Timed(3, 30), Timed(4, 40),
                           Timed(5, 50), Timed(5, 55), Timed(6, 60), Timed(8, 80)];
            Collect(New(first, second)) == merged && CollectAsWritten(New(first, second)) == merged
  {
    var first := [Timed(1, 10), Timed(2, 20), Timed(5, 50), Timed(6, 60)];
    var second := [Timed(3, 30), Timed(4, 40), Timed(5, 55), Timed(8, 80)];
    var z := New(first, second);
    CollectIsMerge(z);
    assert Sorted(first);
    AsWrittenAgrees(z);
    ExampleMerge();
  }

  /** The merge of the test's two sides, step by step. */
  lemma {:induction false} ExampleMerge()
    ensures Merge([Timed(1, 10), Timed(2, 20), Timed(5, 50), Timed(6, 60)],
                  [Timed(3, 30), Timed(4, 40), Timed(5, 55), Timed(8, 80)])
            == [Timed(1, 10), Timed(2, 20), Timed(3, 30), Timed(4, 40),
                Timed(5, 50), Timed(5, 55), Timed(6, 60), Timed(8, 80)]
  {
    var a, b, c, d := Timed(1, 10), Timed(2, 20), Timed(5, 50), Timed(6, 60);
    var e, f, g, h := Timed(3, 30), Timed(4, 40), Timed(5, 55), Timed(8, 80);
    assert Merge([d], [h]) == [d] + Merge([], [h]);
    assert Merge([d], [g, h]) == [g] + Merge([d], [h]);
    assert Merge([c, d], [g, h]) == [c] + Merge([d], [g, h]);
    assert Merge([c, d], [f, g, h]) == [f] + Merge([c, d], [g, h]);
    assert Merge([c, d], [e, f, g, h]) == [e] + Merge([c, d], [f, g, h]);
    assert Merge([b, c, d], [e, f, g, h]) == [b] + Merge([c, d], [e, f, g, h]);
    assert Merge([a, b, c, d], [e, f, g, h]) == [a] + Merge([b, c, d], [e, f, g, h]);
  }
}
