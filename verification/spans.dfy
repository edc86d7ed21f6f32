/** The span handle: the user-facing view of one span record, its tag API
    with the reserved `_dd.` namespace, child creation and the finishing
    step its destructor performs. The trace segment is seen only through
    the number of spans registered with it and the number finished; the
    clock, the span-id generator and `SpanData::apply_config` enter as
    parameters. */
module Spans {
  import opened Wrappers

  /** Tags under this prefix are reserved for the library itself. */
  const INTERNAL_TAG_PREFIX := "_dd."

  /** The tag that carries an error's message. */
  const ERROR_MESSAGE_TAG := "error.msg"

  /** First position at or after `from` where `a` and `b` differ, or the
      end of the shorter one (`std::mismatch` over both ranges). */
  function Mismatch(a: string, b: string, from: nat): (k: nat)
    requires from <= |a| && from <= |b|
    ensures from <= k <= |a| && k <= |b|
    ensures forall j :: from <= j < k ==> a[j] == b[j]
    ensures k < |a| && k < |b| ==> a[k] != b[k]
    decreases |a| - from
  {
    if from == |a| || from == |b| || a[from] != b[from] then from else Mismatch(a, b, from + 1)
  }

  /** Whether `subject` begins with `prefix`, comparing no further than the
      end of `prefix`. */
  function StartsWith(subject: string, prefix: string): (r: bool)
    ensures r <==> prefix <= subject
  {
    if |prefix| > |subject| then false else Mismatch(prefix, subject, 0) == |prefix|
  }

  /** `starts_with` as the source writes it: the three-argument
      `std::mismatch` walks the whole of `subject` and reads the prefix's
      memory past its end, modelled by `beyond`. */
  function StartsWithAsWritten(subject: string, prefix: string, beyond: string): (r: bool)
    requires |prefix| + |beyond| >= |subject|
    ensures r ==> prefix <= subject
  {
    if |prefix| > |subject| then false else Mismatch(subject, prefix + beyond, 0) == |prefix|
  }

  /** As written, the answer is right unless `subject` continues, right
      after the prefix, with the byte that lies past the prefix in memory. */
  lemma StartsWithAsWrittenAgrees(subject: string, prefix: string, beyond: string)
    requires |prefix| + |beyond| >= |subject|
    requires |subject| <= |prefix| || subject[|prefix|] != beyond[0]
    ensures StartsWithAsWritten(subject, prefix, beyond) <==> prefix <= subject
  {
    if |prefix| <= |subject| {
      var mem := prefix + beyond;
      var k := Mismatch(subject, mem, 0);
      if prefix <= subject {
        assert forall j :: 0 <= j < |prefix| ==> subject[j] == mem[j];
        if |subject| > |prefix| {
          assert mem[|prefix|] == beyond[0];
        }
      } else {
        var j :| 0 <= j < |prefix| && subject[j] != prefix[j];
        assert mem[j] == prefix[j];
      }
    }
  }

  /** A tag name with a NUL right after `_dd.`: the literal's terminator
      matches it, the comparison runs on past the prefix, and the name is
      taken for a user tag although it is in the reserved namespace. */
  lemma StartsWithAsWrittenMissesReservedName()
    ensures var subject, beyond := "_dd.\0x", "\0y";
            !StartsWithAsWritten(subject, INTERNAL_TAG_PREFIX, beyond)
            && StartsWith(subject, INTERNAL_TAG_PREFIX)
  {
    var subject, mem := "_dd.\0x", INTERNAL_TAG_PREFIX + "\0y";
    assert Mismatch(subject, mem, 5) == 5;
    assert Mismatch(subject, mem, 0) == 5;
  }

  /** Whether a tag name lies in the reserved namespace. */
  function IsInternalTag(name: string): (r: bool)
    ensures r <==> INTERNAL_TAG_PREFIX <= name
  {
    StartsWith(name, INTERNAL_TAG_PREFIX)
  }

  /** One span's record. Times are ticks of the steady clock. */
  datatype SpanData = SpanData(
    traceId: nat,
    spanId: nat,
    parentId: nat,
    service: string,
    serviceType: string,
    name: string,
    resource: string,
    start: int,
    duration: int,
    error: bool,
    tags: map<string, string>)

  /** A span handle: its record, whether it still refers to its trace
      segment (not once it has been moved from), and the end time set with
      `set_end_time`, if any. */
  datatype Span = Span(data: SpanData, attached: bool, endTime: Option<int>)

  /** The trace segment's span bookkeeping: spans registered, spans finished. */
  datatype Segment = Segment(registered: nat, finished: nat)

  function LookupTag(span: Span, name: string): (r: Option<string>)
    ensures INTERNAL_TAG_PREFIX <= name ==> r == None
    ensures !(INTERNAL_TAG_PREFIX <= name) ==>
              (r.Some? <==> name in span.data.tags) && (r.Some? ==> r.value == span.data.tags[name])
  {
    if IsInternalTag(name) then None
    else if name in span.data.tags then Some(span.data.tags[name])
    else None
  }

  function SetTag(span: Span, name: string, value: string): (r: Span)
    ensures r == span.(data := span.data.(tags := r.data.tags))
    ensures INTERNAL_TAG_PREFIX <= name ==> r == span
    ensures !(INTERNAL_TAG_PREFIX <= name) ==> LookupTag(r, name) == Some(value)
    ensures r.data.tags - {name} == span.data.tags - {name}
    ensures forall k :: k != name ==> LookupTag(r, k) == LookupTag(span, k)
  {
    if IsInternalTag(name) then span
    else span.(data := span.data.(tags := span.data.tags[name := value]))
  }

  function RemoveTag(span: Span, name: string): (r: Span)
    ensures r == span.(data := span.data.(tags := r.data.tags))
    ensures INTERNAL_TAG_PREFIX <= name ==> r == span
    ensures !(INTERNAL_TAG_PREFIX <= name) ==> name !in r.data.tags && LookupTag(r, name) == None
    ensures r.data.tags - {name} == span.data.tags - {name}
    ensures forall k :: k != name ==> LookupTag(r, k) == LookupTag(span, k)
  {
    if IsInternalTag(name) then span
    else span.(data := span.data.(tags := span.data.tags - {name}))
  }

  function SetServiceName(span: Span, service: string): (r: Span)
    ensures r.data.service == service
    ensures r.(data := r.data.(service := span.data.service)) == span
  {
    span.(data := span.data.(service := service))
  }

  function SetServiceType(span: Span, serviceType: string): (r: Span)
    ensures r.data.serviceType == serviceType
    ensures r.(data := r.data.(serviceType := span.data.serviceType)) == span
  {
    span.(data := span.data.(serviceType := serviceType))
  }

  function SetResourceName(span: Span, resource: string): (r: Span)
    ensures r.data.resource == resource
    ensures r.(data := r.data.(resource := span.data.resource)) == span
  {
    span.(data := span.data.(resource := resource))
  }

  function SetOperationName(span: Span, name: string): (r: Span)
    ensures r.data.name == name
    ensures r.(data := r.data.(name := span.data.name)) == span
  {
    span.(data := span.data.(name := name))
  }

  /** `set_error(message)`: marks the span as an error and records the
      message, replacing any earlier one. */
  function SetErrorMessage(span: Span, message: string): (r: Span)
    ensures r.data.error
    ensures LookupTag(r, ERROR_MESSAGE_TAG) == Some(message)
    ensures r.data.tags - {ERROR_MESSAGE_TAG} == span.data.tags - {ERROR_MESSAGE_TAG}
    ensures r == span.(data := span.data.(error := true, tags := r.data.tags))
  {
    span.(data := span.data.(error := true, tags := span.data.tags[ERROR_MESSAGE_TAG := message]))
  }

  /** `set_error(bool)`: sets or clears the flag; clearing also drops the message. */
  function SetErrorFlag(span: Span, isError: bool): (r: Span)
    ensures r.data.error == isError
    ensures isError ==> r.data.tags == span.data.tags
    ensures !isError ==> LookupTag(r, ERROR_MESSAGE_TAG) == None
    ensures r.data.tags - {ERROR_MESSAGE_TAG} == span.data.tags - {ERROR_MESSAGE_TAG}
    ensures r == span.(data := span.data.(error := isError, tags := r.data.tags))
  {
    if isError then span.(data := span.data.(error := true))
    else span.(data := span.data.(error := false, tags := span.data.tags - {ERROR_MESSAGE_TAG}))
  }

  function SetEndTime(span: Span, endTime: int): (r: Span)
    ensures r.endTime == Some(endTime) && r.(endTime := span.endTime) == span
  {
    span.(endTime := Some(endTime))
  }

  datatype Created = Created(child: Span, segment: Segment)

  /** `create_child`: `configured` is the record `apply_config` builds from
      the segment's defaults and the caller's configuration, and
      `generatedId` is the span-id generator's next output. The child joins
      the parent's trace under the parent and is registered with the
      segment. */
  function CreateChild(parent: Span, segment: Segment, configured: SpanData, generatedId: nat): (r: Created)
    requires parent.attached
    ensures r.child.data.traceId == parent.data.traceId
    ensures r.child.data.parentId == parent.data.spanId
    ensures r.child.data.spanId == generatedId
    ensures r.child.data.(traceId := configured.traceId, parentId := configured.parentId,
                          spanId := configured.spanId) == configured
    ensures r.child.attached && r.child.endTime == None
    ensures r.segment.registered == segment.registered + 1 && r.segment.finished == segment.finished
  {
    var data := configured.(traceId := parent.data.traceId, parentId := parent.data.spanId,
                            spanId := generatedId);
    Created(Span(data, true, None), Segment(segment.registered + 1, segment.finished))
  }

  datatype Finished = Finished(data: SpanData, segment: Segment)

  /** `~Span`: unless moved from, fixes the duration (to the explicit end
      time if one was set, otherwise to `now` from the clock) and reports the
      span finished to the segment. */
  function Finish(span: Span, segment: Segment, now: int): (r: Finished)
    ensures !span.attached ==> r == Finished(span.data, segment)
    ensures span.attached ==> r.segment.finished == segment.finished + 1
                              && r.segment.registered == segment.registered
    ensures span.attached && span.endTime.Some? ==> r.data.start + r.data.duration == span.endTime.value
    ensures span.attached && span.endTime.None? ==> r.data.start + r.data.duration == now
    ensures r.data.(duration := span.data.duration) == span.data
  {
    if !span.attached then Finished(span.data, segment)
    else
      var duration := if span.endTime.Some? then span.endTime.value - span.data.start
                      else now - span.data.start;
      Finished(span.data.(duration := duration), Segment(segment.registered, segment.finished + 1))
  }
}
