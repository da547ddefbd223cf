/** `RequestIDMiddleware` and the log processors: every record of a request carries the id of its response. */
module Correlation {
  import opened Context
  import opened Text
  import Bearer
  import opened Redaction
  import Tenancy

  // ----- Request ids -----

  predicate IsAlnum(c: char) {
    'a' <= c <= 'z' || 'A' <= c <= 'Z' || '0' <= c <= '9'
  }

  predicate IsIdChar(c: char) {
    IsAlnum(c) || c == '.' || c == '_' || c == '-'
  }

  /** `^[A-Za-z0-9][A-Za-z0-9._-]{0,127}$`, matched in full. */
  predicate IsRequestId(s: string) {
    && 1 <= |s| <= 128
    && IsAlnum(s[0])
    && forall c | c in s[1..] :: IsIdChar(c)
  }

  /** The pattern read as a first character and up to 127 more. */
  lemma RequestIdForm(s: string)
    ensures IsRequestId(s) <==>
              exists head: char, tail: string :: s == [head] + tail && |tail| <= 127
                && ('a' <= head <= 'z' || 'A' <= head <= 'Z' || '0' <= head <= '9')
                && forall c | c in tail ::
                     'a' <= c <= 'z' || 'A' <= c <= 'Z' || '0' <= c <= '9' || c == '.' || c == '_' || c == '-'
  {
    if IsRequestId(s) {
      assert s == [s[0]] + s[1..];
    }
  }

  /** The shape of `str(uuid.uuid4())`. */
  predicate IsUuidText(s: string) {
    && |s| == 36
    && forall i | 0 <= i < 36 :: if i in [8, 13, 18, 23] then s[i] == '-' else '0' <= s[i] <= '9' || 'a' <= s[i] <= 'f'
  }

  /** `_normalize_request_id`; `generated` is the UUID it would draw. */
  function NormalizeRequestId(raw: Option<string>, generated: string): string {
    if raw.None? then generated
    else
      var candidate := Strip(raw.value);
      if IsRequestId(candidate) then candidate else generated
  }

  predicate IsRejected(raw: Option<string>) {
    raw.Some? && Strip(raw.value) != "" && !IsRequestId(Strip(raw.value))
  }

  lemma RequestIdHasNoSpace(s: string)
    requires IsRequestId(s) || IsUuidText(s)
    ensures forall c | c in s :: IsIdChar(c) && !IsSpace(c)
  {
    forall i | 0 <= i < |s|
      ensures IsIdChar(s[i])
    {
      if IsRequestId(s) && i > 0 {
        assert s[1..][i - 1] == s[i];
      }
    }
  }

  /** A normalized id always has the accepted form, and an accepted header is kept through any number of hops. */
  lemma NormalizedRequestId(raw: Option<string>, generated: string)
    requires IsUuidText(generated)
    ensures var id := NormalizeRequestId(raw, generated);
            && IsRequestId(id)
            && (id == if raw.Some? && IsRequestId(Strip(raw.value)) then Strip(raw.value) else generated)
            && forall other :: NormalizeRequestId(Some(id), other) == id
  {
    var id := NormalizeRequestId(raw, generated);
    assert IsRequestId(generated) by {
      RequestIdHasNoSpace(generated);
      assert forall c | c in generated[1..] :: c in generated;
    }
    RequestIdHasNoSpace(id);
    StripOfSpaceless(id);
  }

  ghost predicate HoldsId(raw: string, before: string, id: string, after: string) {
    raw == before + id + after && IsPadding(before) && IsPadding(after) && IsRequestId(id)
  }

  lemma {:induction false} PaddedId(raw: string, before: string, id: string, after: string)
    requires HoldsId(raw, before, id, after)
    ensures Strip(raw) == id && !IsPadding(raw)
  {
    assert IsIdChar(id[|id| - 1]) by {
      RequestIdHasNoSpace(id);
    }
    RequestIdHasNoSpace(id);
    StripOfPadded(before, id, after);
    assert raw[|before|] == id[0];
  }

  /** A header is used exactly when it is an id with padding around it; a header that is present is rejected, with a
      warning, exactly when it is neither that nor padding alone. */
  lemma {:induction false} RequestIdMeaning(raw: string, generated: string)
    ensures forall before, id, after | HoldsId(raw, before, id, after) :: NormalizeRequestId(Some(raw), generated) == id
    ensures (forall before, id, after :: !HoldsId(raw, before, id, after)) ==>
              NormalizeRequestId(Some(raw), generated) == generated
    ensures NormalizeRequestId(None, generated) == generated
    ensures IsRejected(Some(raw))
       <==> !IsPadding(raw) && forall before, id, after :: !HoldsId(raw, before, id, after)
  {
    forall before, id, after | HoldsId(raw, before, id, after)
      ensures Strip(raw) == id
    {
      PaddedId(raw, before, id, after);
    }
    StripOfPadding(raw);
    var before, after := StripParts(raw);
    if IsRequestId(Strip(raw)) {
      assert HoldsId(raw, before, Strip(raw), after);
    }
  }

  // ----- Processors -----

  const REQUEST_ID := "request_id"
  const TENANT_ID := "tenant_id"
  const TRACE_ID := "trace_id"
  const SPAN_ID := "span_id"
  const SERVICE := "service"
  const ENVIRONMENT := "environment"

  /** What the processors before the redaction add: the request context over the caller's fields, then the
      trace ids, if there is a span, and the service. */
  function WithContext(event: map<string, Value>, requestId: string, tenantId: string,
                       trace: Option<(string, string)>, service: string, environment: string): map<string, Value>
  {
    var a := event[REQUEST_ID := Str(requestId)][TENANT_ID := Str(tenantId)];
    var b := if trace.None? then a else a[TRACE_ID := Str(trace.value.0)][SPAN_ID := Str(trace.value.1)];
    b[SERVICE := Str(service)][ENVIRONMENT := Str(environment)]
  }

  function Processed(event: map<string, Value>, requestId: string, tenantId: string,
                     trace: Option<(string, string)>, service: string, environment: string): map<string, Value>
  {
    RedactedFields(WithContext(event, requestId, tenantId, trace, service, environment))
  }

  /** `RequestIDMiddleware` up to its call of `get_response`. */
  method EnterRequest(vars: ContextVars, raw: Option<string>, generated: string) returns (requestId: string)
    requires IsUuidText(generated)
    modifies vars`requestId
    ensures vars.requestId == requestId == NormalizeRequestId(raw, generated)
    ensures IsRequestId(requestId)
  {
    NormalizedRequestId(raw, generated);
    if raw.None? {
      requestId := generated;
    } else {
      var candidate := Strip(raw.value);
      requestId := if candidate == "" || !IsRequestId(candidate) then generated else candidate;
    }
    vars.requestId := requestId;
  }

  // ----- The keys the processors set -----

  predicate IsContextKey(key: string) {
    key in {REQUEST_ID, TENANT_ID, TRACE_ID, SPAN_ID, SERVICE, ENVIRONMENT}
  }

  lemma ContextKeyIsItsOwnLower(key: string)
    requires IsContextKey(key)
    ensures Lower(key) == key
  {
    assert forall i | 0 <= i < |key| :: 'a' <= key[i] <= 'z' || key[i] == '_';
    LowerOfLower(key);
  }

  /** Of each marker in turn, one letter that `key` does not have. */
  lemma {:induction false} NotSensitiveWithout(key: string, c0: char, c1: char, c2: char, c3: char, c4: char, c5: char,
                                               c6: char)
    requires c0 in MARKERS[0] && c1 in MARKERS[1] && c2 in MARKERS[2] && c3 in MARKERS[3]
    requires c4 in MARKERS[4] && c5 in MARKERS[5] && c6 in MARKERS[6]
    requires c0 !in key && c1 !in key && c2 !in key && c3 !in key && c4 !in key && c5 !in key && c6 !in key
    requires Lower(key) == key
    ensures !IsSensitive(key)
  {
    MissingCharacter(key, MARKERS[0], c0);
    MissingCharacter(key, MARKERS[1], c1);
    MissingCharacter(key, MARKERS[2], c2);
    MissingCharacter(key, MARKERS[3], c3);
    MissingCharacter(key, MARKERS[4], c4);
    MissingCharacter(key, MARKERS[5], c5);
    MissingCharacter(key, MARKERS[6], c6);
  }

  lemma LettersOfMarkers()
    ensures 'p' in MARKERS[0] && 'w' in MARKERS[0]
    ensures 's' in MARKERS[1] && 'c' in MARKERS[1] && 't' in MARKERS[1] && 'e' in MARKERS[1]
    ensures 'o' in MARKERS[2] && 't' in MARKERS[2] && 'k' in MARKERS[2]
    ensures 'a' in MARKERS[3] && 'u' in MARKERS[3]
    ensures 'a' in MARKERS[4] && 'p' in MARKERS[4] && 'k' in MARKERS[4]
    ensures 'a' in MARKERS[5] && 's' in MARKERS[5] && 'c' in MARKERS[5]
    ensures 'f' in MARKERS[6] && 'r' in MARKERS[6]
  {
    assert MARKERS[0][0] == 'p' && MARKERS[0][4] == 'w';
    assert MARKERS[1][0] == 's' && MARKERS[1][2] == 'c' && MARKERS[1][5] == 't' && MARKERS[1][1] == 'e';
    assert MARKERS[2][1] == 'o' && MARKERS[2][0] == 't' && MARKERS[2][2] == 'k';
    assert MARKERS[3][0] == 'a' && MARKERS[3][1] == 'u';
    assert MARKERS[4][0] == 'a' && MARKERS[4][1] == 'p' && MARKERS[4][4] == 'k';
    assert MARKERS[5][0] == 'a' && MARKERS[5][4] == 's' && MARKERS[5][1] == 'c';
    assert MARKERS[6][2] == 'f' && MARKERS[6][0] == 'r';
  }

  lemma RequestIdLetters()
    ensures 'p' !in REQUEST_ID && 'c' !in REQUEST_ID && 'o' !in REQUEST_ID
    ensures 'a' !in REQUEST_ID && 'f' !in REQUEST_ID
  {
  }

  lemma TenantIdLetters()
    ensures 'p' !in TENANT_ID && 's' !in TENANT_ID && 'o' !in TENANT_ID
    ensures 'u' !in TENANT_ID && 'c' !in TENANT_ID && 'r' !in TENANT_ID
  {
  }

  lemma TraceIdLetters()
    ensures 'p' !in TRACE_ID && 's' !in TRACE_ID && 'o' !in TRACE_ID
    ensures 'u' !in TRACE_ID && 'f' !in TRACE_ID
  {
  }

  lemma SpanIdLetters()
    ensures 'w' !in SPAN_ID && 'e' !in SPAN_ID && 't' !in SPAN_ID
    ensures 'u' !in SPAN_ID && 'k' !in SPAN_ID && 'c' !in SPAN_ID && 'r' !in SPAN_ID
  {
  }

  lemma ServiceLetters()
    ensures 'p' !in SERVICE && 't' !in SERVICE && 'o' !in SERVICE
    ensures 'a' !in SERVICE && 'f' !in SERVICE
  {
  }

  lemma EnvironmentLetters()
    ensures 'p' !in ENVIRONMENT && 's' !in ENVIRONMENT && 'k' !in ENVIRONMENT
    ensures 'a' !in ENVIRONMENT && 'f' !in ENVIRONMENT
  {
  }

  lemma {:induction false} ContextKeyIsNotSensitive(key: string)
    requires IsContextKey(key)
    ensures !IsSensitive(key)
  {
    LettersOfMarkers();
    ContextKeyIsItsOwnLower(key);
    if key == REQUEST_ID {
      RequestIdLetters();
      NotSensitiveWithout(key, 'p', 'c', 'o', 'a', 'a', 'a', 'f');
    } else if key == TENANT_ID {
      TenantIdLetters();
      NotSensitiveWithout(key, 'p', 's', 'o', 'u', 'p', 'c', 'r');
    } else if key == TRACE_ID {
      TraceIdLetters();
      NotSensitiveWithout(key, 'p', 's', 'o', 'u', 'p', 's', 'f');
    } else if key == SPAN_ID {
      SpanIdLetters();
      NotSensitiveWithout(key, 'w', 'e', 't', 'u', 'k', 'c', 'r');
    } else if key == SERVICE {
      ServiceLetters();
      NotSensitiveWithout(key, 'p', 't', 'o', 'a', 'a', 'a', 'f');
    } else {
      EnvironmentLetters();
      NotSensitiveWithout(key, 'p', 's', 'k', 'a', 'a', 'a', 'f');
    }
  }

  /** What the context variable for the id can hold: its default, or an accepted id. */
  predicate IsIdOrDefault(requestId: string) {
    requestId == "" || IsRequestId(requestId)
  }

  /** Text without a space has no Bearer match. */
  lemma {:induction false} SpacelessIsNotRedacted(text: string)
    requires forall c | c in text :: !IsSpace(c)
    ensures Bearer.Sub(text) == text
  {
    forall i | 0 <= i < |text|
      ensures !Bearer.Starts(text[i..])
    {
      assert |text[i..]| > 6 ==> text[i..][6] in text;
    }
    Bearer.CoveredIsFixed(text);
  }

  lemma ContextTextIsNotRedacted(text: string)
    requires IsIdOrDefault(text) || Tenancy.IsSlug(text)
    ensures Bearer.Sub(text) == text
  {
    forall c | c in text
      ensures !IsSpace(c)
    {
      if Tenancy.IsSlug(text) {
        Tenancy.SlugCharacters(text, c);
      } else {
        RequestIdHasNoSpace(text);
      }
    }
    SpacelessIsNotRedacted(text);
  }

  // ----- The processed record -----

  /** The keys the processors write, over whatever the caller put there. */
  function Written(trace: Option<(string, string)>): set<string> {
    {REQUEST_ID, TENANT_ID, SERVICE, ENVIRONMENT} + if trace.Some? then {TRACE_ID, SPAN_ID} else {}
  }

  /** The record has the caller's fields, each redacted under its key, and for each key the processors write its text,
      with Bearer tokens redacted; request ids and slugs have none and stay as they are. */
  ghost predicate IsRecordOf(record: map<string, Value>, event: map<string, Value>, requestId: string,
                             tenantId: string, trace: Option<(string, string)>, service: string, environment: string)
  {
    && record.Keys == event.Keys + Written(trace)
    && record[REQUEST_ID] == Str(Bearer.Sub(requestId))
    && (IsIdOrDefault(requestId) ==> record[REQUEST_ID] == Str(requestId))
    && record[TENANT_ID] == Str(Bearer.Sub(tenantId))
    && (Tenancy.IsSlug(tenantId) ==> record[TENANT_ID] == Str(tenantId))
    && record[SERVICE] == Str(Bearer.Sub(service))
    && record[ENVIRONMENT] == Str(Bearer.Sub(environment))
    && (trace.Some? ==>
          record[TRACE_ID] == Str(Bearer.Sub(trace.value.0)) && record[SPAN_ID] == Str(Bearer.Sub(trace.value.1)))
    && forall key | key in event && key !in Written(trace) :: record[key] == Redact(event[key], key)
  }

  lemma ContextKeysDiffer()
    ensures REQUEST_ID !in {TENANT_ID, TRACE_ID, SPAN_ID, SERVICE, ENVIRONMENT}
    ensures TENANT_ID !in {TRACE_ID, SPAN_ID, SERVICE, ENVIRONMENT} && TRACE_ID !in {SPAN_ID, SERVICE, ENVIRONMENT}
    ensures SPAN_ID !in {SERVICE, ENVIRONMENT} && SERVICE != ENVIRONMENT
  {
    assert REQUEST_ID[0] == 'r' && TENANT_ID[0] == 't' && TENANT_ID[1] == 'e' && TRACE_ID[0] == 't'
        && TRACE_ID[1] == 'r' && SPAN_ID[0] == 's' && SPAN_ID[1] == 'p' && SERVICE[0] == 's' && SERVICE[1] == 'e'
        && ENVIRONMENT[0] == 'e';
  }

  lemma {:induction false} FieldsSet(event: map<string, Value>, requestId: string, tenantId: string,
                                     trace: Option<(string, string)>, service: string, environment: string)
    ensures var all := WithContext(event, requestId, tenantId, trace, service, environment);
            && all.Keys == event.Keys + Written(trace)
            && all[REQUEST_ID] == Str(requestId) && all[TENANT_ID] == Str(tenantId)
            && all[SERVICE] == Str(service) && all[ENVIRONMENT] == Str(environment)
            && (trace.Some? ==> all[TRACE_ID] == Str(trace.value.0) && all[SPAN_ID] == Str(trace.value.1))
            && forall key | key in event && key !in Written(trace) :: all[key] == event[key]
  {
    ContextKeysDiffer();
  }

  lemma {:induction false} RedactedText(text: string, key: string)
    requires IsContextKey(key)
    ensures Redact(Str(text), key) == Str(Bearer.Sub(text))
  {
    ContextKeyIsNotSensitive(key);
  }

  lemma {:induction false} RedactedContext(all: map<string, Value>, key: string, text: string)
    requires IsContextKey(key) && key in all && all[key] == Str(text)
    ensures RedactedFields(all)[key] == Str(Bearer.Sub(text))
    ensures IsIdOrDefault(text) || Tenancy.IsSlug(text) ==> RedactedFields(all)[key] == Str(text)
  {
    RedactedText(text, key);
    if IsIdOrDefault(text) || Tenancy.IsSlug(text) {
      ContextTextIsNotRedacted(text);
    }
  }

  lemma RedactedOthers(all: map<string, Value>, event: map<string, Value>, written: set<string>)
    requires all.Keys == event.Keys + written && forall key | key in event && key !in written :: all[key] == event[key]
    ensures RedactedFields(all).Keys == event.Keys + written
    ensures forall key | key in event && key !in written :: RedactedFields(all)[key] == Redact(event[key], key)
  {
  }

  /** Field by field, what the processors make of a record. */
  lemma {:induction false} ProcessedExactly(event: map<string, Value>, requestId: string, tenantId: string,
                                            trace: Option<(string, string)>, service: string, environment: string)
    ensures IsRecordOf(Processed(event, requestId, tenantId, trace, service, environment),
                       event, requestId, tenantId, trace, service, environment)
  {
    var all := WithContext(event, requestId, tenantId, trace, service, environment);
    FieldsSet(event, requestId, tenantId, trace, service, environment);
    RedactedOthers(all, event, Written(trace));
    RedactedContext(all, REQUEST_ID, requestId);
    RedactedContext(all, TENANT_ID, tenantId);
    RedactedContext(all, SERVICE, service);
    RedactedContext(all, ENVIRONMENT, environment);
    if trace.Some? {
      RedactedContext(all, TRACE_ID, trace.value.0);
      RedactedContext(all, SPAN_ID, trace.value.1);
    }
  }

  /** The processors of `configure_logging` up to and including the redaction, in their order. */
  method ProcessRecord(vars: ContextVars, event: EventDict, trace: Option<(string, string)>,
                       service: string, environment: string)
    requires event.Valid()
    modifies event
    ensures event.Valid()
    ensures event.fields
         == Processed(old(event.fields), vars.requestId, vars.tenantId, trace, service, environment)
    ensures IsRecordOf(event.fields, old(event.fields), vars.requestId, vars.tenantId, trace, service, environment)
  {
    ghost var before := event.fields;
    event.Set(REQUEST_ID, Str(vars.requestId));
    event.Set(TENANT_ID, Str(vars.tenantId));
    if trace.Some? {
      event.Set(TRACE_ID, Str(trace.value.0));
      event.Set(SPAN_ID, Str(trace.value.1));
    }
    event.Set(SERVICE, Str(service));
    event.Set(ENVIRONMENT, Str(environment));
    event.RedactSensitiveFields();
    ProcessedExactly(before, vars.requestId, vars.tenantId, trace, service, environment);
  }

  /** The record keeps the request id as it is: no key marker, and no space for a Bearer match. */
  lemma {:induction false} ProcessedKeepsRequestId(event: map<string, Value>, requestId: string, tenantId: string,
                                trace: Option<(string, string)>, service: string, environment: string)
    requires IsRequestId(requestId)
    ensures var record := Processed(event, requestId, tenantId, trace, service, environment);
            REQUEST_ID in record && record[REQUEST_ID] == Str(requestId)
  {
    ProcessedExactly(event, requestId, tenantId, trace, service, environment);
  }

  // ----- Interleaved requests -----

  /** A request in progress: `serial` tells it from the others and `id` is the local of the middleware. */
  datatype Active = Active(serial: nat, id: string)

  /** One worker: its context variable, never reset, and the request it serves. */
  datatype Worker = Worker(requestId: string, active: Option<Active>)

  /** `issued[n]` is the id given to request `n`, kept to state the invariant. */
  datatype State = State(workers: map<nat, Worker>, issued: seq<string>)

  datatype Event =
    | Begin(worker: nat, raw: Option<string>, generated: string, warning: map<string, Value>)
    | Log(worker: nat, event: map<string, Value>, tenantId: string, trace: Option<(string, string)>,
          service: string, environment: string)
    | End(worker: nat)

  /** `Early` is the warning about a bad header, logged before the id is set. */
  datatype Output =
    | Early(serial: nat, record: map<string, Value>)
    | Record(serial: nat, record: map<string, Value>)
    | Header(serial: nat, id: string)

  function WorkerOf(s: State, w: nat): Worker {
    if w in s.workers then s.workers[w] else Worker("", None)
  }

  /** One step. A worker takes a request only when it serves none, and logs or responds only when it does. */
  function Step(s: State, e: Event): (State, seq<Output>) {
    var me := WorkerOf(s, e.worker);
    match e
    case Begin(w, raw, generated, warning) =>
      if me.active.Some? then (s, [])
      else
        var id := NormalizeRequestId(raw, generated);
        var n := |s.issued|;
        (State(s.workers[w := Worker(id, Some(Active(n, id)))], s.issued + [id]),
         if IsRejected(raw) then [Early(n, RedactedFields(warning[REQUEST_ID := Str(me.requestId)]))] else [])
    case Log(w, event, tenantId, trace, service, environment) =>
      if me.active.None? then (s, [])
      else
        (s, [Record(me.active.value.serial, Processed(event, me.requestId, tenantId, trace, service, environment))])
    case End(w) =>
      if me.active.None? then (s, [])
      else
        (s.(workers := s.workers[w := me.(active := None)]), [Header(me.active.value.serial, me.active.value.id)])
  }

  function Run(s: State, es: seq<Event>): (State, seq<Output>)
    decreases |es|
  {
    if es == [] then (s, [])
    else
      var (s1, out) := Step(s, es[0]);
      var (s2, outs) := Run(s1, es[1..]);
      (s2, out + outs)
  }

  ghost predicate Inv(s: State) {
    && (forall n | 0 <= n < |s.issued| :: IsRequestId(s.issued[n]))
    && (forall w | w in s.workers :: IsIdOrDefault(s.workers[w].requestId))
    && forall w | w in s.workers && s.workers[w].active.Some? ::
         var a := s.workers[w].active.value;
         a.serial < |s.issued| && a.id == s.workers[w].requestId == s.issued[a.serial]
  }

  ghost predicate Drawn(es: seq<Event>) {
    forall e | e in es && e.Begin? :: IsUuidText(e.generated)
  }

  ghost predicate Agrees(out: Output, issued: seq<string>) {
    match out
    case Early(_, _) => true
    case Record(n, record) =>
      n < |issued| && REQUEST_ID in record && record[REQUEST_ID] == Str(issued[n])
    case Header(n, id) => n < |issued| && id == issued[n]
  }

  lemma {:induction false} StepAgrees(s: State, e: Event)
    requires Inv(s) && (e.Begin? ==> IsUuidText(e.generated))
    ensures var (s', out) := Step(s, e);
            Inv(s') && s.issued <= s'.issued && forall o | o in out :: Agrees(o, s'.issued)
  {
    var me := WorkerOf(s, e.worker);
    match e
    case Begin(w, raw, generated, _) =>
      NormalizedRequestId(raw, generated);
    case Log(w, event, tenantId, trace, service, environment) =>
      if me.active.Some? {
        ProcessedKeepsRequestId(event, me.requestId, tenantId, trace, service, environment);
      }
    case End(w) =>
  }

  lemma {:induction false} RunAgrees(s: State, es: seq<Event>)
    requires Inv(s) && Drawn(es)
    ensures var (s', outs) := Run(s, es);
            Inv(s') && s.issued <= s'.issued && forall o | o in outs :: Agrees(o, s'.issued)
    decreases |es|
  {
    if es != [] {
      assert es[0] in es;
      StepAgrees(s, es[0]);
      RunAgrees(Step(s, es[0]).0, es[1..]);
    }
  }

  /** In any interleaving of any number of workers, whatever ids earlier requests left behind, every record a
      request logs after its id is set names the id its response carries. */
  lemma LogCorrelation(s: State, es: seq<Event>, record: Output, header: Output)
    requires Inv(s) && Drawn(es)
    requires record in Run(s, es).1 && header in Run(s, es).1
    requires record.Record? && header.Header? && record.serial == header.serial
    ensures REQUEST_ID in record.record && record.record[REQUEST_ID] == Str(header.id)
    ensures IsRequestId(header.id)
  {
    RunAgrees(s, es);
  }

  /** Step `k` is a request that worker `w` takes. */
  ghost predicate Takes(s: State, es: seq<Event>, w: nat, k: int) {
    0 <= k < |es| && es[k].Begin? && es[k].worker == w && WorkerOf(Run(s, es[..k]).0, w).active.None?
  }

  lemma {:induction false} TakesInRest(s: State, es: seq<Event>, w: nat, k: int)
    requires 0 < k <= |es|
    ensures Takes(s, es, w, k) <==> Takes(Step(s, es[0]).0, es[1..], w, k - 1)
  {
    assert es[..k][0] == es[0] && es[..k][1..] == es[1..][..k - 1];
  }

  /** The id of the last request a worker has taken, at step `k`, is what its context variable holds. */
  lemma {:induction false} LeftoverIsLastId(s: State, es: seq<Event>, w: nat) returns (k: int)
    ensures -1 <= k < |es| && forall j | k < j < |es| :: !Takes(s, es, w, j)
    ensures k < 0 ==> WorkerOf(Run(s, es).0, w).requestId == WorkerOf(s, w).requestId
    ensures k >= 0 ==>
              && Takes(s, es, w, k)
              && WorkerOf(Run(s, es).0, w).requestId == NormalizeRequestId(es[k].raw, es[k].generated)
    decreases |es|
  {
    if es == [] {
      k := -1;
    } else {
      var s1 := Step(s, es[0]).0;
      var later := LeftoverIsLastId(s1, es[1..], w);
      forall j | 0 < j < |es|
        ensures Takes(s, es, w, j) <==> Takes(s1, es[1..], w, j - 1)
      {
        TakesInRest(s, es, w, j);
      }
      assert es[..0] == [];
      k := if later >= 0 then later + 1 else if Takes(s, es, w, 0) then 0 else -1;
    }
  }

  lemma {:induction false} WarningOf(s: State, w: nat, raw: Option<string>, generated: string,
                                     warning: map<string, Value>)
    requires WorkerOf(s, w).active.None? && IsIdOrDefault(WorkerOf(s, w).requestId) && IsRejected(raw)
    ensures var (s', out) := Step(s, Begin(w, raw, generated, warning));
            && |out| == 1 && out[0].Early? && out[0].serial < |s'.issued| && s'.issued[out[0].serial] == generated
            && REQUEST_ID in out[0].record && out[0].record[REQUEST_ID] == Str(WorkerOf(s, w).requestId)
  {
    RedactedText(WorkerOf(s, w).requestId, REQUEST_ID);
    ContextTextIsNotRedacted(WorkerOf(s, w).requestId);
  }

  /** The warning about a bad header comes before the id is set. After any run it names the id of the last request
      the worker took, at step `k`, or what the worker started with, the empty default in a new process; so it
      agrees with the response exactly when that is the id the request draws. */
  lemma {:induction false} WarningNamesLeftover(s: State, es: seq<Event>, w: nat, raw: Option<string>,
                                                generated: string, warning: map<string, Value>) returns (k: int)
    requires Inv(s) && Drawn(es) && WorkerOf(Run(s, es).0, w).active.None? && IsRejected(raw)
    ensures -1 <= k < |es| && (k >= 0 ==> Takes(s, es, w, k)) && forall j | k < j < |es| :: !Takes(s, es, w, j)
    ensures var (s', out) := Step(Run(s, es).0, Begin(w, raw, generated, warning));
            var leftover := if k < 0 then WorkerOf(s, w).requestId
                            else NormalizeRequestId(es[k].raw, es[k].generated);
            && |out| == 1 && out[0].Early? && REQUEST_ID in out[0].record
            && out[0].record[REQUEST_ID] == Str(leftover)
            && (out[0].record[REQUEST_ID] == Str(s'.issued[out[0].serial]) <==> leftover == generated)
  {
    k := LeftoverIsLastId(s, es, w);
    RunAgrees(s, es);
    WarningOf(Run(s, es).0, w, raw, generated, warning);
  }
}
