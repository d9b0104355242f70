/** Raw samples and how the consumer assembles them (src/consumer/sample.rs, src/storage/mod.rs,
    src/upstream/header.rs). */
module Samples {
  import opened Wrappers
  import opened Json

  type Bytes = seq<bv8>

  /** Header names with their values in order of appearance. */
  type HeaderMap = map<string, seq<string>>

  datatype Response = Response(status: nat, headers: HeaderMap, body: Bytes)

  /** What the proxy hands over for one request; `requestCurl` is the already rendered request. */
  datatype Message = Message(
    path: string, baseline: Response, candidate: Option<Response>, control: Option<Response>,
    requestCurl: Option<string>)

  datatype RawSample = RawSample(
    id: string, endpoint: string, timestamp: int,
    baselineStatus: nat, baselineBody: Bytes, baselineHeaders: string,
    candidateStatus: Option<nat>, candidateBody: Option<Bytes>, candidateHeaders: Option<string>,
    controlStatus: Option<nat>, controlBody: Option<Bytes>, controlHeaders: Option<string>,
    requestCurl: Option<string>)

  /** Library code outside the model: body decompression, the write-time JSON check, and the two parsers
      used when samples are read. */
  datatype Codec = Codec(
    decode: Response -> Option<Bytes>,
    isJson: Bytes -> bool,
    parse: Bytes -> Option<Value>,
    parseText: string -> Option<Value>)

  // ---------- headers ----------

  const IGNORED_HEADERS: set<string> := {
    "connection", "keep-alive", "transfer-encoding", "te", "upgrade",
    "date", "content-length", "content-encoding", "set-cookie" }

  function HeaderValue(values: seq<string>): Value {
    if |values| == 1 then Str(values[0]) else Arr(seq(|values|, i requires 0 <= i < |values| => Str(values[i])))
  }

  function HeadersToJson(h: HeaderMap): Value {
    Obj(map name | name in h && name !in IGNORED_HEADERS && h[name] != [] :: HeaderValue(h[name]))
  }

  /** The values of a header that are recorded: none for hop-by-hop, volatile and secret headers. */
  function RecordedValues(h: HeaderMap, name: string): seq<string> {
    if name in h && name !in ["connection", "keep-alive", "transfer-encoding", "te", "upgrade", "date",
                              "content-length", "content-encoding", "set-cookie"]
    then h[name] else []
  }

  /** The form in which headers are stored: a single value as a string, several as an array in order. */
  lemma HeadersToJsonForm(h: HeaderMap, name: string)
    ensures HeadersToJson(h).Obj?
    ensures var values, json := RecordedValues(h, name), HeadersToJson(h).fields;
      && (name in json <==> values != [])
      && (|values| == 1 ==> json[name] == Str(values[0]))
      && (|values| >= 2 ==>
            && json[name].Arr? && |json[name].elems| == |values|
            && forall i | 0 <= i < |values| :: json[name].elems[i] == Str(values[i]))
  {}

  /** The headers that take part in the comparison. */
  function ComparedHeaders(h: HeaderMap): HeaderMap {
    map name | name in h && name !in IGNORED_HEADERS && h[name] != [] :: h[name]
  }

  lemma HeaderValueInjective(a: seq<string>, b: seq<string>)
    requires HeaderValue(a) == HeaderValue(b)
    ensures a == b
  {
    if |a| != 1 {
      var x, y := HeaderValue(a).elems, HeaderValue(b).elems;
      forall i | 0 <= i < |a| ensures a[i] == b[i] {
        assert x[i] == Str(a[i]) && y[i] == Str(b[i]);
      }
    }
  }

  /** Normalisation forgets exactly the ignored headers. */
  lemma HeadersToJsonExact(a: HeaderMap, b: HeaderMap)
    ensures HeadersToJson(a) == HeadersToJson(b) <==> ComparedHeaders(a) == ComparedHeaders(b)
  {
    var x, y := HeadersToJson(a).fields, HeadersToJson(b).fields;
    var s, t := ComparedHeaders(a), ComparedHeaders(b);
    assert x.Keys == s.Keys && y.Keys == t.Keys;
    if x == y {
      forall name | name in s ensures s[name] == t[name] {
        assert name in y && x[name] == y[name];
        HeaderValueInjective(s[name], t[name]);
      }
      assert s == t;
    }
    if s == t {
      forall name | name in x ensures x[name] == y[name] { assert s[name] == t[name]; }
      assert x == y;
    }
  }

  function HeadersText(h: HeaderMap): string {
    Text(HeadersToJson(h))
  }

  // ---------- the sample invariant ----------

  /** Body and headers are recorded exactly when the status matches the baseline's, and then the body is JSON. */
  ghost predicate SideWellFormed(codec: Codec, baselineStatus: nat, status: Option<nat>, body: Option<Bytes>,
                                 headers: Option<string>)
  {
    && (body.Some? <==> status == Some(baselineStatus))
    && (headers.Some? <==> status == Some(baselineStatus))
    && (body.Some? ==> codec.isJson(body.value))
  }

  ghost predicate WellFormed(codec: Codec, s: RawSample) {
    && codec.isJson(s.baselineBody)
    && SideWellFormed(codec, s.baselineStatus, s.candidateStatus, s.candidateBody, s.candidateHeaders)
    && SideWellFormed(codec, s.baselineStatus, s.controlStatus, s.controlBody, s.controlHeaders)
  }

  /** A response whose body takes part in the comparison. */
  predicate Compared(response: Option<Response>, baselineStatus: nat) {
    response.Some? && response.value.status == baselineStatus
  }

  // ---------- what is stored of a message ----------

  /** The body decodes, fits the cap and is JSON. */
  ghost predicate StorableBody(codec: Codec, response: Response, maxBodyBytes: nat) {
    var body := codec.decode(response);
    body.Some? && |body.value| <= maxBodyBytes && codec.isJson(body.value)
  }

  /** Every body that has to be compared can be stored: the baseline's, and those of the sides that answered with the
      same status. */
  ghost predicate Storable(codec: Codec, msg: Message, maxBodyBytes: nat) {
    && StorableBody(codec, msg.baseline, maxBodyBytes)
    && (Compared(msg.candidate, msg.baseline.status) ==> StorableBody(codec, msg.candidate.value, maxBodyBytes))
    && (Compared(msg.control, msg.baseline.status) ==> StorableBody(codec, msg.control.value, maxBodyBytes))
  }

  /** What is recorded of a side: nothing if it did not answer, its status alone if that differs from the baseline's,
      and otherwise its decoded body and its headers too. */
  ghost predicate SideRecorded(codec: Codec, baselineStatus: nat, response: Option<Response>, maxBodyBytes: nat,
                               status: Option<nat>, body: Option<Bytes>, headers: Option<string>)
  {
    match response
    case None => status == None && body == None && headers == None
    case Some(r) =>
      && status == Some(r.status)
      && if r.status != baselineStatus then body == None && headers == None
         else body == codec.decode(r) && body.Some? && |body.value| <= maxBodyBytes
              && headers == Some(Text(HeadersToJson(r.headers)))
  }

  /** `x` is the record of `msg`. */
  ghost predicate Records(codec: Codec, msg: Message, maxBodyBytes: nat, x: RawSample) {
    var status := msg.baseline.status;
    && x.requestCurl == msg.requestCurl
    && SideRecorded(codec, status, Some(msg.baseline), maxBodyBytes,
                    Some(x.baselineStatus), Some(x.baselineBody), Some(x.baselineHeaders))
    && SideRecorded(codec, status, msg.candidate, maxBodyBytes, x.candidateStatus, x.candidateBody, x.candidateHeaders)
    && SideRecorded(codec, status, msg.control, maxBodyBytes, x.controlStatus, x.controlBody, x.controlHeaders)
  }

  // ---------- assembling a sample ----------

  function StorableJson(codec: Codec, response: Response, maxBodyBytes: nat): Option<Bytes> {
    var decoded := codec.decode(response);
    if decoded.None? then None
    else if |decoded.value| > maxBodyBytes then None
    else if !codec.isJson(decoded.value) then None
    else decoded
  }

  datatype SampledResponse = SampledResponse(status: Option<nat>, body: Option<Bytes>, headers: Option<string>)

  /** `None` discards the whole sample. */
  function Secondary(codec: Codec, response: Option<Response>, baselineStatus: nat,
                     maxBodyBytes: nat): Option<SampledResponse>
  {
    match response
    case None => Some(SampledResponse(None, None, None))
    case Some(resp) =>
      if resp.status != baselineStatus then Some(SampledResponse(Some(resp.status), None, None))
      else
        match StorableJson(codec, resp, maxBodyBytes)
        case Some(body) => Some(SampledResponse(Some(resp.status), Some(body), Some(HeadersText(resp.headers))))
        case None => None
  }

  function Assemble(codec: Codec, endpoint: string, msg: Message, maxBodyBytes: nat, now: int): (r: Option<RawSample>)
    // The sample invariant that the read side relies on.
    ensures r.Some? ==> WellFormed(codec, r.value) && r.value.endpoint == endpoint && r.value.timestamp == now
    // A sample is kept iff every body it has to compare can be stored, and then it is the record of the message.
    ensures r.Some? <==> Storable(codec, msg, maxBodyBytes)
    ensures r.Some? ==> r.value.id == "" && Records(codec, msg, maxBodyBytes, r.value)
  {
    var status := msg.baseline.status;
    match StorableJson(codec, msg.baseline, maxBodyBytes)
    case None => None
    case Some(body) =>
      match Secondary(codec, msg.candidate, status, maxBodyBytes)
      case None => None
      case Some(candidate) =>
        match Secondary(codec, msg.control, status, maxBodyBytes)
        case None => None
        case Some(control) =>
          Some(RawSample("", endpoint, now, status, body, HeadersText(msg.baseline.headers),
                         candidate.status, candidate.body, candidate.headers,
                         control.status, control.body, control.headers, msg.requestCurl))
  }
}
