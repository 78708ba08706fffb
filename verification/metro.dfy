/** The pure pipes of the metronome example plugin (docs/metro/src/pipes.rs):
    the sampler that plays a recorded sample back by frame index, and the
    event atomizer that turns a stream of timestamped events into one
    optional event per frame. Frame indices are unbounded; `usize`
    overflow of the frame counter is not modelled. */
module Metro {
  import opened Wrappers
  import opened Util

  // ---------------------------------------------------------------------
  // Sampler
  // ---------------------------------------------------------------------

  /** `Sampler`: the recorded frames. */
  datatype Sampler<T> = Sampler(sample: seq<T>)

  /** `Sampler::next`: the frame at the index modulo the sample length; an
      empty sample panics on the division, modelled as `None`. */
  function SamplerNext<T>(s: Sampler<T>, index: nat): (r: Option<T>)
    ensures r.None? <==> |s.sample| == 0
  {
    if |s.sample| == 0 then None else Some(s.sample[index % |s.sample|])
  }

  /** `reset`: nothing to reset; every index plays the same frame after. */
  function SamplerReset<T>(s: Sampler<T>): (r: Sampler<T>)
    ensures forall i: nat :: SamplerNext(r, i) == SamplerNext(s, i)
  {
    s
  }

  /** The sampler loops: within the sample it plays the frame at the index,
      and an index one sample length later plays the same frame. */
  lemma {:induction false} SamplerLoops<T>(s: Sampler<T>, index: nat)
    requires |s.sample| > 0
    ensures index < |s.sample| ==> SamplerNext(s, index) == Some(s.sample[index])
    ensures SamplerNext(s, index + |s.sample|) == SamplerNext(s, index)
  {
    var len := |s.sample|;
    if index < len {
      DivModUnique(index, len, 0, index);
    }
    var q := index / len;
    assert index == len * q + index % len;
    assert index + len == len * (q + 1) + index % len;
    DivModUnique(index + len, len, q + 1, index % len);
  }

  /** The sampler test: the sample 1, 2, 3, 4 plays `i % 4 + 1` at frame
      `i`. */
  lemma {:induction false} SamplerExample(i: nat)
    ensures SamplerNext(Sampler([1, 2, 3, 4]), i) == Some(i % 4 + 1)
  {
  }

  // ---------------------------------------------------------------------
  // EventAtomizer
  // ---------------------------------------------------------------------

  /** `EventAtomizer`: the events not yet pulled from the sequence, the
      pulled event waiting for its frame, and the current frame index. */
  datatype EventAtomizer<T> = EventAtomizer(sequence: seq<(nat, T)>, nextEvent: Option<(nat, T)>, index: nat)

  /** `retrieve_next_event` as written: pulls one event and keeps it only
      when it is not older than the current frame; a stale event leaves no
      pending event. */
  function RetrieveNextEvent<T>(a: EventAtomizer<T>): (r: EventAtomizer<T>)
    ensures r.index == a.index
    ensures a.sequence == [] ==> r.nextEvent.None? && r.sequence == []
    ensures a.sequence != [] ==>
              r.sequence == a.sequence[1..] &&
              (r.nextEvent.Some? <==> a.sequence[0].0 >= a.index) &&
              (r.nextEvent.Some? ==> r.nextEvent.value == a.sequence[0])
  {
    if a.sequence == [] then a.(nextEvent := None)
    else
      var e := a.sequence[0];
      EventAtomizer(a.sequence[1..], if e.0 >= a.index then Some(e) else None, a.index)
  }

  /** `EventAtomizer::new`: frame 0, with the first event pulled. */
  function NewAtomizer<T>(events: seq<(nat, T)>): (a: EventAtomizer<T>)
    ensures a.index == 0
    ensures events == [] ==> a.nextEvent.None? && a.sequence == []
    ensures events != [] ==> a.nextEvent == Some(events[0]) && a.sequence == events[1..]
  {
    RetrieveNextEvent(EventAtomizer(events, None, 0))
  }

  /** `next` for one frame, given how the next event is pulled: the pending
      event is emitted when its frame is the current one, and the next event
      is pulled; with an event pending the frame index advances; with none,
      nothing changes. */
  function Advance<T>(a: EventAtomizer<T>, retrieve: EventAtomizer<T> -> EventAtomizer<T>): (r: (EventAtomizer<T>, Option<T>))
    ensures r.1.Some? <==> a.nextEvent.Some? && a.nextEvent.value.0 == a.index
    ensures r.1.Some? ==> r.1.value == a.nextEvent.value.1 &&
                          r.0 == retrieve(EventAtomizer(a.sequence, None, a.index + 1))
    ensures a.nextEvent.None? ==> r.0 == a
    ensures a.nextEvent.Some? && r.1.None? ==> r.0 == a.(index := a.index + 1)
  {
    match a.nextEvent
    case None => (a, None)
    case Some((eventIndex, eventAtom)) =>
      if eventIndex == a.index then
        (retrieve(EventAtomizer(a.sequence, None, a.index + 1)), Some(eventAtom))
      else
        (a.(index := a.index + 1), None)
  }

  /** `next` as written. */
  function AtomizerNext<T>(a: EventAtomizer<T>): (r: (EventAtomizer<T>, Option<T>))
    ensures a.nextEvent.Some? ==> r.0.index == a.index + 1
  {
    Advance(a, RetrieveNextEvent)
  }

  /** The output of `n` frames. */
  function Run<T>(a: EventAtomizer<T>, n: nat, step: EventAtomizer<T> -> (EventAtomizer<T>, Option<T>)): (r: seq<Option<T>>)
    ensures |r| == n
    decreases n
  {
    if n == 0 then [] else [step(a).1] + Run(step(a).0, n - 1, step)
  }

  /** The payload of the first event of a list stamped with a frame. */
  function EventAt<T>(events: seq<(nat, T)>, frame: nat): (r: Option<T>)
    ensures r.None? <==> forall i :: 0 <= i < |events| ==> events[i].0 != frame
    ensures r.Some? ==> exists i :: 0 <= i < |events| && events[i] == (frame, r.value)
  {
    if events == [] then None
    else if events[0].0 == frame then Some(events[0].1)
    else EventAt(events[1..], frame)
  }

  /** Strictly increasing frames. */
  predicate Increasing<T>(events: seq<(nat, T)>) {
    forall i, k :: 0 <= i < k < |events| ==> events[i].0 < events[k].0
  }

  /** What is still to come: the pending event, then the unpulled ones. */
  function Pending<T>(a: EventAtomizer<T>): (r: seq<(nat, T)>)
    ensures |r| == |a.sequence| + (if a.nextEvent.Some? then 1 else 0)
  {
    (if a.nextEvent.Some? then [a.nextEvent.value] else []) + a.sequence
  }

  /** The state `next` keeps on a strictly increasing stream: the pending
      event is not in the past, and nothing is left unpulled without one. */
  predicate OnSchedule<T>(a: EventAtomizer<T>) {
    Increasing(Pending(a)) &&
    (a.nextEvent.Some? ==> a.nextEvent.value.0 >= a.index) &&
    (a.nextEvent.None? ==> a.sequence == [])
  }

  /** One frame of `next` on schedule: it emits the event stamped with the
      current frame and keeps every later event. */
  lemma {:induction false} AtomizerStep<T>(a: EventAtomizer<T>)
    requires OnSchedule(a)
    ensures var (a', out) := AtomizerNext(a);
            OnSchedule(a') && out == EventAt(Pending(a), a.index) &&
            (a.nextEvent.None? ==> Pending(a') == [] && Pending(a) == []) &&
            (a.nextEvent.Some? ==> forall j: nat :: j > a.index ==> EventAt(Pending(a'), j) == EventAt(Pending(a), j))
  {
    var (a', out) := AtomizerNext(a);
    if a.nextEvent.Some? {
      var p := Pending(a);
      assert p[1..] == a.sequence;
      if a.nextEvent.value.0 == a.index {
        assert Pending(a') == a.sequence by {
          if a.sequence != [] {
            assert p[1] == a.sequence[0];
          }
        }
      } else {
        assert Pending(a') == p;
        assert EventAt(p, a.index) == EventAt(p[1..], a.index);
        assert EventAt(p[1..], a.index) == None by {
          forall i | 0 <= i < |p[1..]| ensures p[1..][i].0 != a.index {
            assert p[1..][i] == p[i + 1];
          }
        }
      }
    }
  }

  /** On a strictly increasing stream, `next` as written emits at each frame
      exactly the event stamped with that frame. */
  lemma {:induction false} AtomizerSchedule<T>(a: EventAtomizer<T>, n: nat)
    requires OnSchedule(a)
    ensures forall k :: 0 <= k < n ==> Run(a, n, AtomizerNext)[k] == EventAt(Pending(a), a.index + k)
    decreases n
  {
    if n > 0 {
      AtomizerStep(a);
      var a' := AtomizerNext(a).0;
      AtomizerSchedule(a', n - 1);
      var r := Run(a, n, AtomizerNext);
      assert r == [AtomizerNext(a).1] + Run(a', n - 1, AtomizerNext);
      forall k | 1 <= k < n
        ensures r[k] == EventAt(Pending(a), a.index + k)
      {
        assert r[k] == Run(a', n - 1, AtomizerNext)[k - 1];
        if a.nextEvent.Some? {
          assert a'.index + (k - 1) == a.index + k;
          assert EventAt(Pending(a'), a.index + k) == EventAt(Pending(a), a.index + k);
        } else {
          assert Pending(a') == [] && Pending(a) == [];
        }
      }
    }
  }

  /** A new atomizer on a strictly increasing stream is on schedule. */
  lemma {:induction false} NewOnSchedule<T>(events: seq<(nat, T)>)
    requires Increasing(events)
    ensures OnSchedule(NewAtomizer(events)) && Pending(NewAtomizer(events)) == events
  {
    if events != [] {
      assert [events[0]] + events[1..] == events;
    }
  }

  /** The atomizer test: events at frames 4 and 10 come out at exactly those
      frames of the first 15. */
  lemma {:induction false} AtomizerExample()
    ensures var out := Run(NewAtomizer([(4, 1), (10, 5)]), 15, AtomizerNext);
            forall k :: 0 <= k < 15 ==> out[k] == (if k == 4 then Some(1) else if k == 10 then Some(5) else None)
  {
    var events: seq<(nat, int)> := [(4, 1), (10, 5)];
    NewOnSchedule(events);
    AtomizerSchedule(NewAtomizer(events), 15);
  }

  /** With no pending event the atomizer emits nothing, whatever is left in
      the sequence. */
  lemma {:induction false} SilentForever<T>(a: EventAtomizer<T>, n: nat)
    requires a.nextEvent.None?
    ensures forall k :: 0 <= k < n ==> Run(a, n, AtomizerNext)[k] == None
    decreases n
  {
    if n > 0 {
      SilentForever(a, n - 1);
    }
  }

  /** A stale event, stamped no later than one already emitted, leaves the
      atomizer with no pending event, so every later event is lost: with
      events at frames 4, 4 and 10, frame 10 emits nothing. */
  lemma {:induction false} StaleEventEndsOutput()
    ensures Run(NewAtomizer([(4, 1), (4, 2), (10, 5)]), 11, AtomizerNext)[10] == None
    ensures Run(NewAtomizer([(4, 1), (4, 2), (10, 5)]), 11, AtomizerNext)[4] == Some(1)
  {
    var a0 := NewAtomizer([(4, 1), (4, 2), (10, 5)]);
    var a1 := AtomizerNext(a0).0;
    var a2 := AtomizerNext(a1).0;
    var a3 := AtomizerNext(a2).0;
    var a4 := AtomizerNext(a3).0;
    var a5 := AtomizerNext(a4).0;
    assert a4 == EventAtomizer([(4, 2), (10, 5)], Some((4, 1)), 4);
    assert AtomizerNext(a4).1 == Some(1);
    assert a5 == EventAtomizer([(10, 5)], None, 5);
    SilentForever(a5, 6);
    var r := Run(a0, 11, AtomizerNext);
    assert r[4..] == Run(a4, 7, AtomizerNext) by {
      assert r[1..] == Run(a1, 10, AtomizerNext);
      assert r[1..][1..] == Run(a2, 9, AtomizerNext);
      assert r[1..][1..][1..] == Run(a3, 8, AtomizerNext);
      assert r[1..][1..][1..][1..] == Run(a4, 7, AtomizerNext);
    }
    assert r[10] == r[4..][1..][5];
  }

  /** `retrieve_next_event` as its description intends: stale events are
      dropped and the next event that is not in the past is pulled. */
  function RetrieveSkippingStale<T>(a: EventAtomizer<T>): (r: EventAtomizer<T>)
    ensures r.index == a.index
    ensures r.nextEvent.Some? ==> r.nextEvent.value.0 >= a.index
    ensures r.nextEvent.None? ==> r.sequence == []
    decreases |a.sequence|
  {
    if a.sequence == [] then a.(nextEvent := None)
    else if a.sequence[0].0 >= a.index then EventAtomizer(a.sequence[1..], Some(a.sequence[0]), a.index)
    else RetrieveSkippingStale(a.(sequence := a.sequence[1..]))
  }

  /** `next` with the stale events dropped. */
  function AtomizerNextSkipping<T>(a: EventAtomizer<T>): (r: (EventAtomizer<T>, Option<T>))
    ensures a.nextEvent.Some? ==> r.0.index == a.index + 1
  {
    Advance(a, RetrieveSkippingStale)
  }

  /** `new` with the stale events dropped. */
  function NewAtomizerSkipping<T>(events: seq<(nat, T)>): (a: EventAtomizer<T>)
    ensures a.index == 0
  {
    RetrieveSkippingStale(EventAtomizer(events, None, 0))
  }

  /** The events an atomizer should emit from frame `from` on: each event
      is kept when it is not older than the frame after the last kept one. */
  function Kept<T>(events: seq<(nat, T)>, from: nat): (r: seq<(nat, T)>)
    ensures forall i :: 0 <= i < |r| ==> r[i].0 >= from
    ensures Increasing(r)
    decreases |events|
  {
    if events == [] then []
    else if events[0].0 >= from then [events[0]] + Kept(events[1..], events[0].0 + 1)
    else Kept(events[1..], from)
  }

  /** The events still to be emitted: the pending one and those kept after
      it. */
  function Future<T>(a: EventAtomizer<T>): (r: seq<(nat, T)>)
  {
    match a.nextEvent
    case None => []
    case Some((e, x)) => [(e, x)] + Kept(a.sequence, e + 1)
  }

  /** Pulling with stale events dropped leaves exactly the kept events to
      come. */
  lemma {:induction false} RetrieveSkippingKept<T>(a: EventAtomizer<T>)
    ensures Future(RetrieveSkippingStale(a)) == Kept(a.sequence, a.index)
    decreases |a.sequence|
  {
    if a.sequence != [] && a.sequence[0].0 < a.index {
      RetrieveSkippingKept(a.(sequence := a.sequence[1..]));
    }
  }

  /** The state the corrected `next` keeps: the pending event is not in the
      past, and nothing is left unpulled without one. */
  predicate Pulled<T>(a: EventAtomizer<T>) {
    (a.nextEvent.Some? ==> a.nextEvent.value.0 >= a.index) &&
    (a.nextEvent.None? ==> a.sequence == [])
  }

  /** One frame of the corrected `next`: it emits the kept event stamped
      with the current frame and keeps every later one. */
  lemma {:induction false} AtomizerSkippingStep<T>(a: EventAtomizer<T>)
    requires Pulled(a)
    ensures var (a', out) := AtomizerNextSkipping(a);
            Pulled(a') && out == EventAt(Future(a), a.index) &&
            (a.nextEvent.None? ==> Future(a') == [] && Future(a) == []) &&
            (a.nextEvent.Some? ==> forall j: nat :: j > a.index ==> EventAt(Future(a'), j) == EventAt(Future(a), j))
  {
    if a.nextEvent.Some? {
      var (e, x) := a.nextEvent.value;
      var f := Future(a);
      assert f[1..] == Kept(a.sequence, e + 1);
      var a' := AtomizerNextSkipping(a).0;
      if e == a.index {
        RetrieveSkippingKept(EventAtomizer(a.sequence, None, a.index + 1));
        assert Future(a') == f[1..];
        EventAtFront(f, e);
      } else {
        NoEventBefore(f[1..], e + 1, a.index);
        assert a' == a.(index := a.index + 1);
        assert Future(a') == f;
      }
    }
  }

  /** Past the first event's frame, a list answers as its tail does. */
  lemma {:induction false} EventAtFront<T>(events: seq<(nat, T)>, frame: nat)
    requires events != [] && events[0].0 == frame
    ensures forall j: nat :: j != frame ==> EventAt(events, j) == EventAt(events[1..], j)
  {
  }

  /** A list whose frames are all at least `from` has no event before it. */
  lemma {:induction false} NoEventBefore<T>(events: seq<(nat, T)>, from: nat, frame: nat)
    requires frame < from && forall i :: 0 <= i < |events| ==> events[i].0 >= from
    ensures EventAt(events, frame) == None
  {
  }

  /** The corrected atomizer emits at each frame exactly the kept event
      stamped with that frame. */
  lemma {:induction false} AtomizerSkippingSchedule<T>(a: EventAtomizer<T>, n: nat)
    requires Pulled(a)
    ensures forall k :: 0 <= k < n ==> Run(a, n, AtomizerNextSkipping)[k] == EventAt(Future(a), a.index + k)
    decreases n
  {
    if n > 0 {
      AtomizerSkippingStep(a);
      var a' := AtomizerNextSkipping(a).0;
      AtomizerSkippingSchedule(a', n - 1);
      var r := Run(a, n, AtomizerNextSkipping);
      assert r == [AtomizerNextSkipping(a).1] + Run(a', n - 1, AtomizerNextSkipping);
      forall k | 1 <= k < n
        ensures r[k] == EventAt(Future(a), a.index + k)
      {
        assert r[k] == Run(a', n - 1, AtomizerNextSkipping)[k - 1];
        if a.nextEvent.Some? {
          assert a'.index + (k - 1) == a.index + k;
          assert EventAt(Future(a'), a.index + k) == EventAt(Future(a), a.index + k);
        } else {
          assert Future(a') == [] && Future(a) == [];
        }
      }
    }
  }

  /** From a new corrected atomizer, frame `k` emits the kept event stamped
      `k`: stale events are dropped and the stream goes on. */
  lemma {:induction false} NewSkippingSchedule<T>(events: seq<(nat, T)>, n: nat)
    ensures forall k :: 0 <= k < n ==> Run(NewAtomizerSkipping(events), n, AtomizerNextSkipping)[k] == EventAt(Kept(events, 0), k)
  {
    RetrieveSkippingKept(EventAtomizer(events, None, 0));
    AtomizerSkippingSchedule(NewAtomizerSkipping(events), n);
  }

  /** On the stream with a stale event, the corrected atomizer drops only
      that event and still emits the event at frame 10. */
  lemma {:induction false} SkippingKeepsLaterEvents()
    ensures Run(NewAtomizerSkipping([(4, 1), (4, 2), (10, 5)]), 11, AtomizerNextSkipping)[10] == Some(5)
    ensures Run(NewAtomizerSkipping([(4, 1), (4, 2), (10, 5)]), 11, AtomizerNextSkipping)[4] == Some(1)
  {
    var events: seq<(nat, int)> := [(4, 1), (4, 2), (10, 5)];
    NewSkippingSchedule(events, 11);
    assert Kept(events, 0) == [(4, 1), (10, 5)] by {
      assert events[1..][1..] == [(10, 5)];
      assert Kept(events[1..][1..], 5) == [(10, 5)];
    }
  }

  /** On a strictly increasing stream nothing is stale, so the corrected
      atomizer keeps every event, as the original does. */
  lemma {:induction false} KeptIncreasing<T>(events: seq<(nat, T)>, from: nat)
    requires Increasing(events) && forall i :: 0 <= i < |events| ==> events[i].0 >= from
    ensures Kept(events, from) == events
    decreases |events|
  {
    if events != [] {
      KeptIncreasing(events[1..], events[0].0 + 1);
      assert [events[0]] + events[1..] == events;
    }
  }
}
