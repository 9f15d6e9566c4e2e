/**
  The event counter (`EventCounter` in `NERDd/modules/event_counter.py`): the
  number of events and of distinct reporting nodes of an IP record in the last
  1, 7 and 30 days, and the exponentially weighted averages of the last seven
  days. Dates are day numbers and "today" is a parameter; the handler's requests
  go to the update manager rather than back to the caller, so the outcome says
  whether they were issued.
*/
module EventCounter {
  import opened Wrappers
  import opened Values

  /** One entry of `rec['events']`: its count, its date as a day number, and the
      node that reported it. */
  datatype Event = Event(n: int, day: int, node: string)

  /** `count_events` returns None in every case; what differs is whether the eight
      requests reach `g.um.update`, or the handler raises first. */
  datatype Outcome = Skipped | Issued(requests: seq<Request>) | Raised

  /** The attributes the handler declares it may change. */
  const Registered: seq<string> := ["events_meta.total1", "events_meta.total7", "events_meta.total30",
                                    "events_meta.nodes_1d", "events_meta.nodes_7d", "events_meta.nodes_30d",
                                    "ewma", "bin_ewma"]

  /** The attributes its requests set, in order. */
  const Emitted: seq<string> := ["events_meta.total1", "events_meta.total7", "events_meta.total30",
                                 "events_meta.nodes_1d", "events_meta.nodes_7d", "events_meta.nodes_30d",
                                 "events_meta.ewma", "events_meta.bin_ewma"]

  // ---------------------------------------------------------------------------
  // Windows

  /** The sum of the counts of the events at most w days old. */
  function WindowTotal(evs: seq<Event>, today: int, w: int): int
  {
    if evs == [] then 0
    else
      var e := evs[|evs| - 1];
      WindowTotal(evs[..|evs| - 1], today, w) + (if today - e.day <= w then e.n else 0)
  }

  /** The nodes that reported an event at most w days old. */
  function WindowNodes(evs: seq<Event>, today: int, w: int): set<string>
  {
    if evs == [] then {}
    else
      var e := evs[|evs| - 1];
      WindowNodes(evs[..|evs| - 1], today, w) + (if today - e.day <= w then {e.node} else {})
  }

  /** A node is in a window exactly when it reported an event that recent. */
  lemma {:induction false} WindowNodesSpec(evs: seq<Event>, today: int, w: int)
    ensures forall x :: x in WindowNodes(evs, today, w) <==>
      exists k :: 0 <= k < |evs| && today - evs[k].day <= w && evs[k].node == x
  {
    if evs != [] {
      var init := evs[..|evs| - 1];
      WindowNodesSpec(init, today, w);
      assert forall k :: 0 <= k < |init| ==> init[k] == evs[k];
    }
  }

  /** The slot of `alerts_per_day` that an event `diff` days old adds to: Python
      indexes a negative diff from the end of the seven-entry list. */
  function Slot(diff: int): (s: int)
    requires -7 <= diff < 7
    ensures 0 <= s < 7 && (s == diff || s == diff + 7)
  {
    if diff >= 0 then diff else diff + 7
  }

  /** The counts of the events that land in slot s. */
  function SlotTotal(evs: seq<Event>, today: int, s: int): int
  {
    if evs == [] then 0
    else
      var e := evs[|evs| - 1];
      var diff := today - e.day;
      SlotTotal(evs[..|evs| - 1], today, s) + (if diff == s || diff == s - 7 then e.n else 0)
  }

  function Slots(evs: seq<Event>, today: int): (perDay: seq<int>)
    ensures |perDay| == 7 && forall s :: 0 <= s < 7 ==> perDay[s] == SlotTotal(evs, today, s)
  {
    seq(7, s => SlotTotal(evs, today, s))
  }

  /** An event dated more than seven days ahead indexes the list out of range. */
  predicate TooFarAhead(e: Event, today: int)
  {
    today - e.day < -7
  }

  // ---------------------------------------------------------------------------
  // Weighted averages

  /** `EWMA_WEIGHTS[i]` = 0.25 * 0.75^i. */
  function Weight(i: nat): (w: real)
    ensures 0.0 < w <= 0.25
  {
    if i == 0 then 0.25 else 0.75 * Weight(i - 1)
  }

  /** `sum(n * w for n, w in zip(alerts_per_day, EWMA_WEIGHTS))` over the first k slots. */
  function Ewma(perDay: seq<int>, k: nat): real
    requires k <= |perDay|
  {
    if k == 0 then 0.0 else Ewma(perDay, k - 1) + perDay[k - 1] as real * Weight(k - 1)
  }

  /** `sum((w if n else 0) ...)` over the first k slots. */
  function BinEwma(perDay: seq<int>, k: nat): real
    requires k <= |perDay|
  {
    if k == 0 then 0.0 else BinEwma(perDay, k - 1) + (if perDay[k - 1] != 0 then Weight(k - 1) else 0.0)
  }

  /** The weights of the first k slots add up to 1 - 0.75^k. */
  function WeightSum(k: nat): real
  {
    if k == 0 then 0.0 else WeightSum(k - 1) + Weight(k - 1)
  }

  /** 0.75^k. */
  function Decay(k: nat): (d: real)
    ensures 0.0 < d <= 1.0
  {
    if k == 0 then 1.0 else 0.75 * Decay(k - 1)
  }

  // ---------------------------------------------------------------------------
  // The handler

  /** The eight requests for a record's events. */
  function Requests(evs: seq<Event>, today: int): (reqs: seq<Request>)
    ensures |reqs| == |Emitted|
    ensures reqs[0].path == Emitted[0] && reqs[1].path == Emitted[1] && reqs[2].path == Emitted[2]
    ensures reqs[3].path == Emitted[3] && reqs[4].path == Emitted[4] && reqs[5].path == Emitted[5]
    ensures reqs[6].path == Emitted[6] && reqs[7].path == Emitted[7]
    ensures forall i :: 0 <= i < |reqs| ==> reqs[i].Set?
  {
    var perDay := Slots(evs, today);
    [ Set(Emitted[0], VNum(WindowTotal(evs, today, 1) as real)),
      Set(Emitted[1], VNum(WindowTotal(evs, today, 7) as real)),
      Set(Emitted[2], VNum(WindowTotal(evs, today, 30) as real)),
      Set(Emitted[3], VNum(|WindowNodes(evs, today, 1)| as real)),
      Set(Emitted[4], VNum(|WindowNodes(evs, today, 7)| as real)),
      Set(Emitted[5], VNum(|WindowNodes(evs, today, 30)| as real)),
      Set(Emitted[6], VNum(Ewma(perDay, 7))),
      Set(Emitted[7], VNum(BinEwma(perDay, 7))) ]
  }

  /** `count_events`: nothing for an entity that is not an IP or a record without
      events; otherwise one pass over the events accumulating the three windows
      and the seven daily slots, then the eight requests. An event dated more
      than seven days ahead raises before any request is issued. */
  method CountEvents(etype: string, events: Option<seq<Event>>, today: int) returns (out: Outcome)
    ensures out.Skipped? <==> etype != "ip" || events.None?
    ensures out.Raised? <==>
      && etype == "ip" && events.Some?
      && exists k :: 0 <= k < |events.value| && TooFarAhead(events.value[k], today)
    ensures out.Issued? ==> out.requests == Requests(events.value, today)
  {
    if etype != "ip" || events.None? {
      return Skipped;
    }
    var evs := events.value;
    var total1, total7, total30 := 0, 0, 0;
    var nodes1: set<string>, nodes7: set<string>, nodes30: set<string> := {}, {}, {};
    var perDay := [0, 0, 0, 0, 0, 0, 0];
    var i := 0;
    while i < |evs|
      invariant 0 <= i <= |evs|
      invariant total1 == WindowTotal(evs[..i], today, 1)
      invariant total7 == WindowTotal(evs[..i], today, 7)
      invariant total30 == WindowTotal(evs[..i], today, 30)
      invariant nodes1 == WindowNodes(evs[..i], today, 1)
      invariant nodes7 == WindowNodes(evs[..i], today, 7)
      invariant nodes30 == WindowNodes(evs[..i], today, 30)
      invariant |perDay| == 7 && forall s :: 0 <= s < 7 ==> perDay[s] == SlotTotal(evs[..i], today, s)
      invariant forall k :: 0 <= k < i ==> !TooFarAhead(evs[k], today)
    {
      var diff := today - evs[i].day;
      total1, nodes1 := AddToWindow(evs, i, today, 1, total1, nodes1);
      total7, nodes7 := AddToWindow(evs, i, today, 7, total7, nodes7);
      total30, nodes30 := AddToWindow(evs, i, today, 30, total30, nodes30);
      if diff < -7 {
        assert TooFarAhead(events.value[i], today);
        return Raised;
      }
      perDay := AddToSlot(evs, i, today, perDay);
      i := i + 1;
    }
    assert evs[..|evs|] == evs;
    assert perDay == Slots(evs, today);
    out := Issued(Requests(evs, today));
  }

  /** The body of the loop for one window: the event's count and node are added
      when it is at most w days old. */
  method AddToWindow(evs: seq<Event>, i: nat, today: int, w: int, total: int, nodes: set<string>)
    returns (total': int, nodes': set<string>)
    requires i < |evs|
    requires total == WindowTotal(evs[..i], today, w) && nodes == WindowNodes(evs[..i], today, w)
    ensures total' == WindowTotal(evs[..i + 1], today, w) && nodes' == WindowNodes(evs[..i + 1], today, w)
  {
    var e := evs[i];
    total', nodes' := total, nodes;
    if today - e.day <= w {
      total' := total + e.n;
      nodes' := nodes + {e.node};
    }
    WindowStep(evs, i, today, w);
  }

  /** The body of the loop for `alerts_per_day`: an event less than seven days old
      adds its count to its slot. */
  method AddToSlot(evs: seq<Event>, i: nat, today: int, perDay: seq<int>) returns (perDay': seq<int>)
    requires i < |evs| && !TooFarAhead(evs[i], today)
    requires |perDay| == 7 && forall s :: 0 <= s < 7 ==> perDay[s] == SlotTotal(evs[..i], today, s)
    ensures |perDay'| == 7 && forall s :: 0 <= s < 7 ==> perDay'[s] == SlotTotal(evs[..i + 1], today, s)
  {
    var diff := today - evs[i].day;
    perDay' := perDay;
    if diff < 7 {
      var s := Slot(diff);
      perDay' := perDay[s := perDay[s] + evs[i].n];
    }
    SlotsStep(evs, i, today);
  }

  /** One more event extends a window's total and nodes as the loop does. */
  lemma WindowStep(evs: seq<Event>, i: nat, today: int, w: int)
    requires i < |evs|
    ensures var e := evs[i];
      && WindowTotal(evs[..i + 1], today, w) == WindowTotal(evs[..i], today, w) + (if today - e.day <= w then e.n else 0)
      && WindowNodes(evs[..i + 1], today, w) == WindowNodes(evs[..i], today, w) + (if today - e.day <= w then {e.node} else {})
  {
    assert evs[..i + 1][..i] == evs[..i];
  }

  /** One more event that does not raise moves its slot as the loop does. */
  lemma SlotsStep(evs: seq<Event>, i: nat, today: int)
    requires i < |evs|
    ensures forall s :: (SlotTotal(evs[..i + 1], today, s)
      == SlotTotal(evs[..i], today, s) + (if today - evs[i].day == s || today - evs[i].day == s - 7 then evs[i].n else 0))
  {
    assert evs[..i + 1][..i] == evs[..i];
  }

  // ---------------------------------------------------------------------------
  // Properties

  /** A window's total over two runs of events is the sum of their totals, so the
      order of the events does not matter. */
  lemma {:induction false} WindowTotalAppend(a: seq<Event>, b: seq<Event>, today: int, w: int)
    ensures WindowTotal(a + b, today, w) == WindowTotal(a, today, w) + WindowTotal(b, today, w)
    decreases |b|
  {
    if b == [] {
      assert a + b == a;
    } else {
      var init := b[..|b| - 1];
      assert (a + b)[..|a + b| - 1] == a + init;
      WindowTotalAppend(a, init, today, w);
    }
  }

  /** An event more than w days old changes nothing in that window. */
  lemma OldEventIgnored(a: seq<Event>, e: Event, b: seq<Event>, today: int, w: int)
    requires today - e.day > w
    ensures WindowTotal(a + [e] + b, today, w) == WindowTotal(a + b, today, w)
    ensures WindowNodes(a + [e] + b, today, w) == WindowNodes(a + b, today, w)
  {
    WindowTotalAppend(a + [e], b, today, w);
    WindowTotalAppend(a, [e], today, w);
    WindowTotalAppend(a, b, today, w);
    assert [e][..0] == [];
    OldEventNoNode(a, e, b, today, w);
  }

  lemma OldEventNoNode(a: seq<Event>, e: Event, b: seq<Event>, today: int, w: int)
    requires today - e.day > w
    ensures WindowNodes(a + [e] + b, today, w) == WindowNodes(a + b, today, w)
  {
    var s, t := a + [e] + b, a + b;
    WindowNodesSpec(s, today, w);
    WindowNodesSpec(t, today, w);
    forall x | x in WindowNodes(s, today, w) ensures x in WindowNodes(t, today, w) {
      var k :| 0 <= k < |s| && today - s[k].day <= w && s[k].node == x;
      if k < |a| {
        assert t[k] == s[k];
      } else {
        assert t[k - 1] == s[k];
      }
    }
    forall x | x in WindowNodes(t, today, w) ensures x in WindowNodes(s, today, w) {
      var k :| 0 <= k < |t| && today - t[k].day <= w && t[k].node == x;
      if k < |a| {
        assert s[k] == t[k];
      } else {
        assert s[k + 1] == t[k];
      }
    }
  }

  /** With non-negative counts a wider window never counts fewer events. */
  lemma {:induction false} WindowTotalMonotone(evs: seq<Event>, today: int, w1: int, w2: int)
    requires w1 <= w2
    requires forall k :: 0 <= k < |evs| ==> evs[k].n >= 0
    ensures WindowTotal(evs, today, w1) <= WindowTotal(evs, today, w2)
  {
    if evs != [] {
      var init := evs[..|evs| - 1];
      assert forall k :: 0 <= k < |init| ==> init[k] == evs[k];
      WindowTotalMonotone(init, today, w1, w2);
    }
  }

  /** A wider window sees every node a narrower one sees, so it never counts fewer
      nodes. */
  lemma WindowNodesNested(evs: seq<Event>, today: int, w1: int, w2: int)
    requires w1 <= w2
    ensures WindowNodes(evs, today, w1) <= WindowNodes(evs, today, w2)
    ensures |WindowNodes(evs, today, w1)| <= |WindowNodes(evs, today, w2)|
  {
    var a, b := WindowNodes(evs, today, w1), WindowNodes(evs, today, w2);
    WindowNodesSpec(evs, today, w1);
    WindowNodesSpec(evs, today, w2);
    SubsetSize(a, b);
  }

  lemma SubsetSize<T>(a: set<T>, b: set<T>)
    requires a <= b
    ensures |a| <= |b|
  {
    assert b == a + (b - a);
  }

  /** The issued counts are ordered: total1 <= total7 <= total30 when no count is
      negative, and nodes_1d <= nodes_7d <= nodes_30d always. */
  lemma RequestsOrdered(evs: seq<Event>, today: int)
    requires forall k :: 0 <= k < |evs| ==> evs[k].n >= 0
    ensures var r := Requests(evs, today);
      && r[0].value.n <= r[1].value.n <= r[2].value.n
      && r[3].value.n <= r[4].value.n <= r[5].value.n
  {
    WindowTotalMonotone(evs, today, 1, 7);
    WindowTotalMonotone(evs, today, 7, 30);
    WindowNodesNested(evs, today, 1, 7);
    WindowNodesNested(evs, today, 7, 30);
  }

  /** An event dated d days ahead, 1 <= d <= 7, is counted in all three windows and
      lands in slot 7 - d, the slot of an event 7 - d days old. */
  lemma FutureEventAliases(e: Event, today: int)
    requires 1 <= e.day - today <= 7
    ensures var r := Requests([e], today);
      && r[0].value.n == r[1].value.n == r[2].value.n == e.n as real
      && Slots([e], today)[7 - (e.day - today)] == e.n
  {
    var s := 7 - (e.day - today);
    assert [e][..0] == [];
    assert WindowTotal([e], today, 1) == e.n;
    assert WindowTotal([e], today, 7) == e.n;
    assert WindowTotal([e], today, 30) == e.n;
    assert SlotTotal([e], today, s) == e.n;
  }

  /** The weights of k slots add up to 1 - 0.75^k. */
  lemma {:induction false} WeightSumClosed(k: nat)
    ensures WeightSum(k) == 1.0 - Decay(k)
    ensures Weight(k) == 0.25 * Decay(k)
  {
    if k > 0 {
      WeightSumClosed(k - 1);
    }
  }

  /** bin_ewma lies between 0 and 1 - 0.75^k, reaching the top exactly when every
      slot has an event count other than 0. */
  lemma {:induction false} BinEwmaBounds(perDay: seq<int>, k: nat)
    requires k <= |perDay|
    ensures 0.0 <= BinEwma(perDay, k) <= WeightSum(k)
    ensures BinEwma(perDay, k) == WeightSum(k) <==> forall i :: 0 <= i < k ==> perDay[i] != 0
  {
    if k > 0 {
      BinEwmaBounds(perDay, k - 1);
      BinEwmaGap(perDay, k - 1);
    }
  }

  /** Below the top, bin_ewma stays below it by more than any later weight adds. */
  lemma BinEwmaGap(perDay: seq<int>, k: nat)
    requires k < |perDay|
    requires 0.0 <= BinEwma(perDay, k) <= WeightSum(k)
    ensures BinEwma(perDay, k + 1) <= WeightSum(k + 1)
    ensures BinEwma(perDay, k + 1) == WeightSum(k + 1) <==> BinEwma(perDay, k) == WeightSum(k) && perDay[k] != 0
  {
  }

  /** ewma is never negative for non-negative counts, and at most the largest
      daily count times the weights' sum. */
  lemma {:induction false} EwmaBounds(perDay: seq<int>, k: nat, top: int)
    requires k <= |perDay|
    requires forall i :: 0 <= i < k ==> 0 <= perDay[i] <= top
    ensures 0.0 <= Ewma(perDay, k) <= top as real * WeightSum(k)
  {
    if k > 0 {
      EwmaBounds(perDay, k - 1, top);
      var n, w := perDay[k - 1] as real, Weight(k - 1);
      assert Ewma(perDay, k) == Ewma(perDay, k - 1) + n * w;
      assert WeightSum(k) == WeightSum(k - 1) + w;
      SumAtMost(Ewma(perDay, k - 1), WeightSum(k - 1), n, w, top as real);
    }
  }

  /** e + n * w stays below top * (s + w) when e stays below top * s and n below top. */
  lemma SumAtMost(e: real, s: real, n: real, w: real, top: real)
    requires 0.0 <= e <= top * s && 0.0 <= n <= top && w > 0.0
    ensures 0.0 <= e + n * w <= top * (s + w)
  {
    assert n * w <= top * w;
  }

  /** The requests set two attributes outside the registered list: the averages
      are declared as `ewma` and `bin_ewma` but set under `events_meta.`. */
  lemma EmittedOutsideRegistered()
    ensures forall i :: 0 <= i < 6 ==> Emitted[i] == Registered[i]
    ensures Emitted[6] !in Registered && Emitted[7] !in Registered
    ensures Registered[6] !in Emitted && Registered[7] !in Emitted
  {
  }
}
