/** The trace segment's counters stay balanced, registered = finished +
    handles still attached, whatever order children are created, handles
    moved and destroyed in; so once no handle is attached the number of
    finish reports equals the number of registrations. Which span a report
    belongs to is not tracked. */
module SpanLifecycle {
  import opened Wrappers
  import opened Spans

  /** Number of handles that still refer to their segment. */
  function AttachedCount(live: seq<Span>): nat
  {
    if |live| == 0 then 0
    else AttachedCount(live[..|live| - 1]) + (if live[|live| - 1].attached then 1 else 0)
  }

  lemma {:induction false} AttachedCountBound(live: seq<Span>)
    ensures AttachedCount(live) <= |live|
    ensures AttachedCount(live) == 0 <==> forall i :: 0 <= i < |live| ==> !live[i].attached
  {
    if |live| > 0 {
      var init := live[..|live| - 1];
      AttachedCountBound(init);
      assert forall i :: 0 <= i < |init| ==> init[i] == live[i];
    }
  }

  lemma {:induction false} AttachedCountAppend(live: seq<Span>, s: Span)
    ensures AttachedCount(live + [s]) == AttachedCount(live) + (if s.attached then 1 else 0)
  {
    assert (live + [s])[..|live|] == live;
  }

  /** Replacing one handle changes the count by the difference in its flag. */
  lemma {:induction false} AttachedCountUpdate(live: seq<Span>, i: nat, s: Span)
    requires i < |live|
    ensures AttachedCount(live[i := s]) + (if live[i].attached then 1 else 0)
            == AttachedCount(live) + (if s.attached then 1 else 0)
    decreases |live|
  {
    var n := |live| - 1;
    if i < n {
      assert live[i := s][..n] == live[..n][i := s];
      AttachedCountUpdate(live[..n], i, s);
    } else {
      assert live[i := s][..n] == live[..n];
    }
  }

  /** Removing one handle lowers the count by its flag. */
  lemma {:induction false} AttachedCountRemove(live: seq<Span>, i: nat)
    requires i < |live|
    ensures AttachedCount(live[..i] + live[i + 1..]) + (if live[i].attached then 1 else 0)
            == AttachedCount(live)
    decreases |live|
  {
    var n := |live| - 1;
    if i < n {
      var shorter := live[..n];
      assert live[..i] + live[i + 1..] == (shorter[..i] + shorter[i + 1..]) + [live[n]];
      AttachedCountAppend(shorter[..i] + shorter[i + 1..], live[n]);
      AttachedCountRemove(shorter, i);
    } else {
      assert live[..i] + live[i + 1..] == live[..n];
    }
  }

  /** One trace segment with the span handles in the program that refer to
      it or once did. */
  datatype Trace = Trace(segment: Segment, live: seq<Span>)

  predicate Balanced(t: Trace)
  {
    t.segment.registered == t.segment.finished + AttachedCount(t.live)
  }

  /** A segment starts out with its local root registered and one handle to it. */
  function Begin(root: SpanData): (t: Trace)
    ensures Balanced(t) && t.segment.finished == 0 && t.segment.registered == 1
  {
    AttachedCountAppend([], Span(root, true, None));
    Trace(Segment(1, 0), [Span(root, true, None)])
  }

  /** A child of live handle `i`, appended as a new handle. */
  function Spawn(t: Trace, i: nat, configured: SpanData, generatedId: nat): (r: Trace)
    requires i < |t.live| && t.live[i].attached
    requires Balanced(t)
    ensures Balanced(r)
    ensures |r.live| == |t.live| + 1 && r.live[..|t.live|] == t.live
    ensures r.segment == Segment(t.segment.registered + 1, t.segment.finished)
    ensures r.live[|t.live|].attached && r.live[|t.live|].endTime.None?
    ensures r.live[|t.live|].data.traceId == t.live[i].data.traceId
    ensures r.live[|t.live|].data.parentId == t.live[i].data.spanId
    ensures r.live[|t.live|].data.spanId == generatedId
  {
    var created := CreateChild(t.live[i], t.segment, configured, generatedId);
    AttachedCountAppend(t.live, created.child);
    assert (t.live + [created.child])[..|t.live|] == t.live;
    Trace(created.segment, t.live + [created.child])
  }

  /** Moving handle `i` into a new handle: the new one takes over the span,
      the old one is left moved-from, which is the state the destructor's
      guard tests for. `Span`'s move constructor is not part of this model;
      this is the transfer that guard presupposes. */
  function Move(t: Trace, i: nat): (r: Trace)
    requires i < |t.live|
    requires Balanced(t)
    ensures Balanced(r)
    ensures r.segment == t.segment && |r.live| == |t.live| + 1
    ensures r.live[..|t.live|] == t.live[i := t.live[i].(attached := false)]
    ensures r.live[|t.live|] == t.live[i]
  {
    var moved := t.live[i].(attached := false);
    AttachedCountUpdate(t.live, i, moved);
    AttachedCountAppend(t.live[i := moved], t.live[i]);
    Trace(t.segment, t.live[i := moved] + [t.live[i]])
  }

  /** Destroying handle `i` at clock reading `now`. */
  function Destroy(t: Trace, i: nat, now: int): (r: Trace)
    requires i < |t.live|
    requires Balanced(t)
    ensures Balanced(r)
    ensures r.live == t.live[..i] + t.live[i + 1..]
    ensures r.segment.registered == t.segment.registered
    ensures r.segment.finished == t.segment.finished + (if t.live[i].attached then 1 else 0)
  {
    var done := Finish(t.live[i], t.segment, now);
    AttachedCountRemove(t.live, i);
    Trace(done.segment, t.live[..i] + t.live[i + 1..])
  }

  /** Finish reports never outnumber registrations, and once no handle is
      attached the two counts are equal. */
  lemma AllFinished(t: Trace)
    requires Balanced(t)
    ensures t.segment.finished <= t.segment.registered
    ensures (forall i :: 0 <= i < |t.live| ==> !t.live[i].attached) ==>
              t.segment.finished == t.segment.registered
  {
    AttachedCountBound(t.live);
  }
}
