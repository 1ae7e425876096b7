/** Idempotent replay of POST requests, behind the response formatter.

    The formatter is the outer middleware: what the handler writes (or what a replay writes) goes into
    a buffering writer and is formatted once the inner middleware returns.  Redis always answers. */
module Idempotency {
  import opened Prelude

  type Bytes = seq<bv8>

  /** What a handler does to its response writer. */
  datatype Call = WriteHeader(code: int) | Write(bytes: Bytes)

  datatype Response = Response(status: int, body: Bytes)

  // ---- the formatter ----

  datatype Meta = NoMeta | PageMeta(meta: Bytes) | CursorMeta(meta: Bytes)

  datatype Envelope = Failure(code: Bytes, message: Bytes) | Success(data: Bytes, meta: Meta)

  datatype ErrorFields = ErrorFields(code: Bytes, message: Bytes)

  datatype Page = Page(data: Bytes, meta: Bytes)

  /** What the JSON package finds in a body; a page is found only when both its fields are non-null. */
  datatype Json = Json(
    isEnvelope: Bytes -> bool,
    errorFields: Bytes -> Option<ErrorFields>,
    page: Bytes -> Option<Page>,
    cursorPage: Bytes -> Option<Page>,
    raw: Bytes -> Bytes,
    statusText: int -> Bytes,
    trimSpace: Bytes -> Bytes,
    encode: Envelope -> Bytes
  )

  function Wrap(json: Json, status: int, body: Bytes): Envelope {
    if status >= 400 then
      var e := json.errorFields(body);
      if e.Some? && e.value.message != [] then Failure(e.value.code, e.value.message)
      else Failure(json.statusText(status), json.trimSpace(body))
    else if json.page(body).Some? then
      Success(json.page(body).value.data, PageMeta(json.page(body).value.meta))
    else if json.cursorPage(body).Some? then
      Success(json.cursorPage(body).value.data, CursorMeta(json.cursorPage(body).value.meta))
    else
      Success(json.raw(body), NoMeta)
  }

  function Format(json: Json, status: int, body: Bytes): Response {
    Response(status, if body == [] || json.isEnvelope(body) then body else json.encode(Wrap(json, status, body)))
  }

  /** Which envelope a body that is not one yet goes out in: an error from status 400 on, with the code and
      message found in the body or else the status text and the trimmed body; below that the data, with page
      meta if a page is found, else with cursor meta if a cursor page is, else the whole body without meta. */
  lemma WrappedExactly(json: Json, status: int, body: Bytes) returns (e: Envelope)
    requires body != [] && !json.isEnvelope(body)
    ensures Format(json, status, body) == Response(status, json.encode(e))
    ensures e.Failure? <==> status >= 400
    ensures e.Failure? ==>
      var f := json.errorFields(body);
      if f.Some? && f.value.message != [] then e.code == f.value.code && e.message == f.value.message
      else e.code == json.statusText(status) && e.message == json.trimSpace(body)
    ensures e.Success? ==>
      && (json.page(body).Some? ==>
           e.data == json.page(body).value.data && e.meta == PageMeta(json.page(body).value.meta))
      && (json.page(body).None? && json.cursorPage(body).Some? ==>
           e.data == json.cursorPage(body).value.data && e.meta == CursorMeta(json.cursorPage(body).value.meta))
      && (json.page(body).None? && json.cursorPage(body).None? ==> e.data == json.raw(body) && e.meta == NoMeta)
  {
    e := Wrap(json, status, body);
  }

  /** Empty bodies and envelopes go out as they are, and the status always does. */
  lemma SentUnwrapped(json: Json, status: int, body: Bytes)
    ensures body == [] || json.isEnvelope(body) ==> Format(json, status, body) == Response(status, body)
    ensures Format(json, status, body).status == status
  {
  }

  /** Formatting a formatted response changes nothing, given that encoded envelopes are recognised. */
  lemma FormatTwice(json: Json, status: int, body: Bytes)
    requires forall e :: json.isEnvelope(json.encode(e))
    ensures var r := Format(json, status, body); Format(json, r.status, r.body) == r
  {
    var e := Wrap(json, status, body);
    assert json.isEnvelope(json.encode(e));
  }

  // ---- the two writers ----

  /** The status the client gets: the first one set, 200 if none is. */
  function StatusSet(calls: seq<Call>): Option<int> {
    if calls == [] then None
    else
      var before, c := StatusSet(calls[..|calls| - 1]), calls[|calls| - 1];
      if before.None? && c.WriteHeader? then Some(c.code) else before
  }

  function FirstStatus(calls: seq<Call>): int {
    if StatusSet(calls).Some? then StatusSet(calls).value else 200
  }

  /** The status that decides whether the response is recorded: the last one set, 200 if none is. */
  function LastStatus(calls: seq<Call>): int {
    if calls == [] then 200
    else
      var c := calls[|calls| - 1];
      if c.WriteHeader? then c.code else LastStatus(calls[..|calls| - 1])
  }

  function BodyOf(calls: seq<Call>): Bytes {
    if calls == [] then []
    else
      var c := calls[|calls| - 1];
      BodyOf(calls[..|calls| - 1]) + if c.Write? then c.bytes else []
  }

  function StatusCalls(calls: seq<Call>): nat {
    if calls == [] then 0
    else StatusCalls(calls[..|calls| - 1]) + if calls[|calls| - 1].WriteHeader? then 1 else 0
  }

  lemma {:induction false} OneStatus(calls: seq<Call>)
    ensures StatusSet(calls).None? <==> StatusCalls(calls) == 0
    ensures StatusCalls(calls) <= 1 ==> FirstStatus(calls) == LastStatus(calls)
  {
    if calls != [] { OneStatus(calls[..|calls| - 1]); }
  }

  class FormattingWriter {
    var statusCode: int
    var body: Bytes
    var wroteHeader: bool

    constructor ()
      ensures Holds([])
    {
      statusCode, body, wroteHeader := 200, [], false;
    }

    ghost predicate Holds(calls: seq<Call>)
      reads this
    {
      && statusCode == FirstStatus(calls) && body == BodyOf(calls)
      && (wroteHeader <==> StatusSet(calls).Some?)
    }

    method WriteHeader(code: int)
      modifies this
      ensures body == old(body) && wroteHeader
      ensures statusCode == if old(wroteHeader) then old(statusCode) else code
    {
      if wroteHeader { return; }
      statusCode := code;
      wroteHeader := true;
    }

    method Write(b: Bytes)
      modifies this
      ensures body == old(body) + b && statusCode == old(statusCode) && wroteHeader == old(wroteHeader)
    {
      body := body + b;
    }

    method Serve(calls: seq<Call>)
      requires Holds([])
      modifies this
      ensures Holds(calls)
    {
      for i := 0 to |calls|
        invariant Holds(calls[..i])
      {
        assert calls[..i + 1][..i] == calls[..i];
        match calls[i]
        case WriteHeader(code) => WriteHeader(code);
        case Write(b) => Write(b);
      }
      assert calls[..|calls|] == calls;
    }

    method Finish(json: Json) returns (res: Response)
      ensures res == Format(json, statusCode, body)
    {
      if |body| == 0 { return Response(statusCode, []); }
      if json.isEnvelope(body) { return Response(statusCode, body); }
      if statusCode >= 400 {
        var e := json.errorFields(body);
        if e.Some? && e.value.message != [] {
          return Response(statusCode, json.encode(Failure(e.value.code, e.value.message)));
        }
        return Response(statusCode, json.encode(Failure(json.statusText(statusCode), json.trimSpace(body))));
      }
      var p := json.page(body);
      if p.Some? { return Response(statusCode, json.encode(Success(p.value.data, PageMeta(p.value.meta)))); }
      p := json.cursorPage(body);
      if p.Some? { return Response(statusCode, json.encode(Success(p.value.data, CursorMeta(p.value.meta)))); }
      res := Response(statusCode, json.encode(Success(json.raw(body), NoMeta)));
    }
  }

  class IdempotencyCapture {
    const inner: FormattingWriter
    var statusCode: int
    var body: Bytes

    constructor (inner: FormattingWriter)
      requires inner.Holds([])
      ensures this.inner == inner && Holds([])
    {
      this.inner, statusCode, body := inner, 200, [];
    }

    ghost predicate Holds(calls: seq<Call>)
      reads this, inner
    {
      inner.Holds(calls) && statusCode == LastStatus(calls) && body == BodyOf(calls)
    }

    method WriteHeader(code: int)
      modifies this, inner
      ensures statusCode == code && body == old(body)
      ensures inner.body == old(inner.body) && inner.wroteHeader
      ensures inner.statusCode == if old(inner.wroteHeader) then old(inner.statusCode) else code
    {
      statusCode := code;
      inner.WriteHeader(code);
    }

    method Write(b: Bytes)
      modifies this, inner
      ensures statusCode == old(statusCode) && body == old(body) + b
      ensures inner.body == old(inner.body) + b
      ensures inner.statusCode == old(inner.statusCode) && inner.wroteHeader == old(inner.wroteHeader)
    {
      body := body + b;
      inner.Write(b);
    }

    method Serve(calls: seq<Call>)
      requires Holds([])
      modifies this, inner
      ensures Holds(calls)
    {
      for i := 0 to |calls|
        invariant Holds(calls[..i])
      {
        assert calls[..i + 1][..i] == calls[..i];
        match calls[i]
        case WriteHeader(code) => WriteHeader(code);
        case Write(b) => Write(b);
      }
      assert calls[..|calls|] == calls;
    }
  }

  // ---- the middleware ----

  datatype Entry = Entry(status: int, body: Bytes, expires: Option<int>)

  /** Redis keeps an entry stored without a positive time to live for ever. */
  function Expiry(at: int, ttl: int): Option<int> {
    if ttl > 0 then Some(at + ttl) else None
  }

  predicate Fresh(e: Entry, now: int) {
    e.expires.Some? ==> now < e.expires.value
  }

  /** calls is what the handler does when it runs for this request. */
  datatype Request = Request(verb: string, key: string, at: int, calls: seq<Call>)

  const POST := "POST"

  predicate Keyed(r: Request) { r.verb == POST && r.key != [] }

  predicate Successful(r: Request) { 200 <= LastStatus(r.calls) < 300 }

  predicate Replays(store: map<string, Entry>, r: Request) {
    Keyed(r) && r.key in store && Fresh(store[r.key], r.at)
  }

  function Stored(store: map<string, Entry>, r: Request, ttl: int): map<string, Entry> {
    if Keyed(r) && !Replays(store, r) && Successful(r)
    then store[r.key := Entry(LastStatus(r.calls), BodyOf(r.calls), Expiry(r.at, ttl))]
    else store
  }

  function Answer(json: Json, store: map<string, Entry>, r: Request): Response {
    if Replays(store, r) then Format(json, store[r.key].status, store[r.key].body)
    else Format(json, FirstStatus(r.calls), BodyOf(r.calls))
  }

  class Gateway {
    const json: Json
    const ttl: int
    var store: map<string, Entry>

    constructor (json: Json, ttl: int)
      ensures this.json == json && this.ttl == ttl && store == map[]
    {
      this.json, this.ttl, store := json, ttl, map[];
    }

    /** One request through the formatter and the idempotency middleware; ran says whether the handler ran. */
    method Handle(r: Request) returns (res: Response, ran: bool)
      modifies this
      ensures store == Stored(old(store), r, ttl)
      ensures res == Answer(json, old(store), r)
      ensures ran <==> !Replays(old(store), r)
      // without a key, or with another verb, the handler answers and nothing is stored
      ensures r.verb != "POST" || r.key == "" ==>
        ran && store == old(store) && res == Format(json, FirstStatus(r.calls), BodyOf(r.calls))
    {
      var w := new FormattingWriter();
      ran := true;
      if r.verb != POST || r.key == [] {
        w.Serve(r.calls);
      } else if r.key in store && Fresh(store[r.key], r.at) {
        w.WriteHeader(store[r.key].status);
        w.Write(store[r.key].body);
        assert [] + store[r.key].body == store[r.key].body;
        ran := false;
      } else {
        var capture := new IdempotencyCapture(w);
        capture.Serve(r.calls);
        if 200 <= capture.statusCode && capture.statusCode < 300 {
          store := store[r.key := Entry(capture.statusCode, capture.body, Expiry(r.at, ttl))];
        }
      }
      res := w.Finish(json);
    }
  }

  // ---- runs ----

  function StoreAfter(run: seq<Request>, ttl: int): map<string, Entry> {
    if run == [] then map[]
    else Stored(StoreAfter(run[..|run| - 1], ttl), run[|run| - 1], ttl)
  }

  predicate Ran(run: seq<Request>, ttl: int, i: nat)
    requires i < |run|
  {
    !Replays(StoreAfter(run[..i], ttl), run[i])
  }

  function Answered(json: Json, run: seq<Request>, ttl: int, i: nat): Response
    requires i < |run|
  {
    Answer(json, StoreAfter(run[..i], ttl), run[i])
  }

  predicate InOrder(run: seq<Request>) { forall i, j :: 0 <= i < j < |run| ==> run[i].at <= run[j].at }

  /** Request i ran the handler for a key and its response was recorded. */
  predicate Recorded(run: seq<Request>, ttl: int, i: nat, key: string)
    requires i < |run|
  {
    Keyed(run[i]) && run[i].key == key && Successful(run[i]) && Ran(run, ttl, i)
  }

  lemma PrefixRan(run: seq<Request>, ttl: int, i: nat, n: nat)
    requires i < n <= |run|
    ensures Ran(run[..n], ttl, i) == Ran(run, ttl, i)
  {
    assert run[..n][..i] == run[..i];
  }

  /** The store holds the most recent recorded response of a key. */
  ghost predicate Latest(run: seq<Request>, ttl: int, key: string, i: nat) {
    && i < |run| && Recorded(run, ttl, i, key)
    && (forall j :: i < j < |run| ==> !Recorded(run, ttl, j, key))
  }

  lemma {:induction false} StoreIsLatest(run: seq<Request>, ttl: int, key: string) returns (i: nat)
    ensures var s := StoreAfter(run, ttl);
      if key in s then
        && Latest(run, ttl, key, i)
        && s[key] == Entry(LastStatus(run[i].calls), BodyOf(run[i].calls), Expiry(run[i].at, ttl))
      else forall j :: 0 <= j < |run| ==> !Recorded(run, ttl, j, key)
  {
    i := 0;
    if run != [] {
      var n := |run| - 1;
      i := StoreIsLatest(run[..n], ttl, key);
      forall j | 0 <= j < n
        ensures Recorded(run[..n], ttl, j, key) == Recorded(run, ttl, j, key)
      {
        PrefixRan(run, ttl, j, n);
      }
      if Recorded(run, ttl, n, key) { i := n; }
    }
  }

  /** Less than the time to live has passed, which is always so when that is not positive. */
  predicate Within(from: int, now: int, ttl: int) { ttl <= 0 || now < from + ttl }

  /** A request is replayed exactly when it is a POST with a key and a POST with its key ran and answered
      with a status from 200 to 299 less than the time to live before, or at all when that is not positive;
      otherwise the handler runs. */
  lemma ReplayedExactlyWhen(run: seq<Request>, ttl: int, n: nat)
    requires InOrder(run) && n < |run|
    ensures !Ran(run, ttl, n) <==>
      && run[n].verb == "POST" && run[n].key != ""
      && exists i :: 0 <= i < n && Ran(run, ttl, i) && run[i].verb == "POST" && run[i].key == run[n].key
           && 200 <= LastStatus(run[i].calls) <= 299 && (ttl <= 0 || run[n].at < run[i].at + ttl)
  {
    var key := run[n].key;
    var last := StoreIsLatest(run[..n], ttl, key);
    forall j | 0 <= j < n
      ensures Recorded(run[..n], ttl, j, key) == Recorded(run, ttl, j, key)
    {
      PrefixRan(run, ttl, j, n);
    }
    if i :| 0 <= i < n && Keyed(run[n]) && Recorded(run, ttl, i, key) && Within(run[i].at, run[n].at, ttl) {
      assert Recorded(run[..n], ttl, i, key);
      assert i <= last && run[i].at <= run[last].at;
    }
    if !Ran(run, ttl, n) {
      assert Recorded(run[..n], ttl, last, key) && Recorded(run, ttl, last, key);
    }
  }

  /** After a recorded execution the handler does not run again for that key before ttl has passed, and
      never again when ttl is not positive. */
  lemma ExecutionsAreSpaced(run: seq<Request>, ttl: int, i: nat, j: nat)
    requires InOrder(run) && i < j < |run|
    requires Keyed(run[j]) && Recorded(run, ttl, i, run[j].key) && Ran(run, ttl, j)
    ensures ttl > 0 && run[j].at >= run[i].at + ttl
  {
    ReplayedExactlyWhen(run, ttl, j);
  }

  /** A replay answers from the most recent recorded execution of its key.  It repeats that execution's
      answer exactly when the last status the handler set was also the first. */
  lemma ReplayIsFaithfulExactlyWhen(json: Json, run: seq<Request>, ttl: int, n: nat) returns (i: nat)
    requires InOrder(run) && n < |run| && !Ran(run, ttl, n)
    ensures i < n && Recorded(run, ttl, i, run[n].key)
    ensures forall j :: i < j < n ==> !Recorded(run, ttl, j, run[n].key)
    ensures Answered(json, run, ttl, n) == Format(json, LastStatus(run[i].calls), BodyOf(run[i].calls))
    ensures 200 <= Answered(json, run, ttl, n).status < 300
    ensures Answered(json, run, ttl, n) == Answered(json, run, ttl, i)
      <==> FirstStatus(run[i].calls) == LastStatus(run[i].calls)
  {
    var key := run[n].key;
    i := StoreIsLatest(run[..n], ttl, key);
    forall j | 0 <= j < n
      ensures Recorded(run[..n], ttl, j, key) == Recorded(run, ttl, j, key)
    {
      PrefixRan(run, ttl, j, n);
    }
  }

  /** For handlers that set the status at most once every replay repeats the recorded answer. */
  lemma SingleStatusReplays(json: Json, run: seq<Request>, ttl: int, n: nat) returns (i: nat)
    requires InOrder(run) && n < |run| && !Ran(run, ttl, n)
    requires forall j :: 0 <= j < |run| ==> StatusCalls(run[j].calls) <= 1
    ensures i < n && Recorded(run, ttl, i, run[n].key)
    ensures Answered(json, run, ttl, n) == Answered(json, run, ttl, i)
  {
    i := ReplayIsFaithfulExactlyWhen(json, run, ttl, n);
    OneStatus(run[i].calls);
  }

  lemma SetStatus(calls: seq<Call>, code: int)
    ensures var more := calls + [WriteHeader(code)];
      && BodyOf(more) == BodyOf(calls) && LastStatus(more) == code
      && StatusSet(more) == if StatusSet(calls).None? then Some(code) else StatusSet(calls)
  {
    var more := calls + [WriteHeader(code)];
    assert more[..|more| - 1] == calls;
    assert BodyOf(calls) + [] == BodyOf(calls);
  }

  /** A handler that sets 500 and then 200: the client is told 500, its retry is told 200. */
  lemma TwoStatusesDiffer(json: Json, ttl: int) returns (run: seq<Request>)
    ensures |run| == 2 && InOrder(run) && run[0].calls == run[1].calls && !Ran(run, ttl, 1)
    ensures Answered(json, run, ttl, 0) == Response(500, []) && Answered(json, run, ttl, 1) == Response(200, [])
  {
    var first := [] + [WriteHeader(500)];
    SetStatus([], 500);
    SetStatus(first, 200);
    var r := Request(POST, "k", 0, first + [WriteHeader(200)]);
    run := [r, r];
    assert run[..0] == [] && run[..1] == [r] && [r][..0] == [];
    assert StoreAfter([r], ttl) == Stored(map[], r, ttl);
  }
}
