/** The request/response operations built on the codec, the listener and the responder:
    `Announce` and the terminal outcome of `Query`. Sockets and timers are abstracted: the
    success of a subscription or send is a parameter, and the datagrams that arrive before
    the deadline are given as a finite sequence. */
module Protocol {
  import opened Wrappers
  import opened Codec
  import opened Transport
  import opened Listener
  import opened Responder

  /** Why `Announce` refused to start. */
  datatype AnnounceError = InvalidName

  /** What a successful `Announce` sets going: a responder for this address and name, and one
      broadcast payload. */
  datatype AnnouncePlan = AnnouncePlan(responderAddr: string, responderName: string, payload: string)

  /** `Announce`: an empty name is rejected before anything starts or is sent; any other name
      starts a responder for it and broadcasts its announcement, which decodes back to
      exactly this address and name when the fields are well formed. */
  function Announce(srcAddr: string, name: string): (r: Result<AnnouncePlan, AnnounceError>)
    ensures r.Err? <==> name == ""
    ensures r.Ok? ==> r.value.responderAddr == srcAddr && r.value.responderName == name
    ensures r.Ok? && WellFormed(Srvc(TypeAnnounce, srcAddr, name))
            ==> Decode(r.value.payload) == Ok(Srvc(TypeAnnounce, srcAddr, name))
  {
    if name == "" then Err(InvalidName)
    else
      var payload := Encode(Srvc(TypeAnnounce, srcAddr, name));
      DecodeOfEncode(Srvc(TypeAnnounce, srcAddr, name));
      Ok(AnnouncePlan(srcAddr, name, payload))
  }

  /** A listener awaiting the announced name hears the announcement: it hands out the
      announced name and address and closes. */
  lemma AnnounceHeard(srcAddr: string, name: string, src: string)
    requires WellFormed(Srvc(TypeAnnounce, srcAddr, name))
    ensures Announce(srcAddr, name).Ok?
    ensures ListenFor([name], [Inbound(Announce(srcAddr, name).value.payload, src, false)])
            == Filter({}, [Service(name, srcAddr)], true)
  {
    var m := Inbound(Announce(srcAddr, name).value.payload, src, false);
    assert Accepted({TypeAnnounce}, m) == Some(Srvc(TypeAnnounce, srcAddr, name));
    assert {name} - {name} == {};
    assert Start([name]).pending == {name};
    assert Run({TypeAnnounce}, Start([name]), [m]) == Run({TypeAnnounce}, Step({TypeAnnounce}, Start([name]), m), []);
  }

  /** The empty-name check is the only validation: a name containing the delimiter is
      accepted, but its announcement can never be decoded by anyone. */
  lemma AnnounceDelimiterInName(srcAddr: string, name: string)
    requires Sep in name
    ensures Announce(srcAddr, name).Ok?
    ensures Decode(Announce(srcAddr, name).value.payload) == Err(MissingProtocol)
  {
    DecodeOfEncode(Srvc(TypeAnnounce, srcAddr, name));
  }

  /** The terminal outcomes of `Query`. */
  datatype QueryOutcome = ListenFailed | SendFailed | Found(service: Service) | Timeout

  /** The query payload `Query` broadcasts, first and on every retry; it decodes to a query
      from this address for this name whenever those fields are well formed. */
  function QueryPayload(srcAddr: string, name: string): (r: string)
    ensures WellFormed(Srvc(TypeQuery, srcAddr, name)) ==> Decode(r) == Ok(Srvc(TypeQuery, srcAddr, name))
  {
    DecodeOfEncode(Srvc(TypeQuery, srcAddr, name));
    Encode(Srvc(TypeQuery, srcAddr, name))
  }

  /** The datagrams `payloads` as received from `src`. */
  function Deliver(payloads: seq<string>, src: string): (r: seq<Inbound>)
    ensures |r| == |payloads|
    ensures forall i :: 0 <= i < |r| ==> r[i].message == payloads[i]
  {
    seq(|payloads|, i requires 0 <= i < |payloads| => Inbound(payloads[i], src, false))
  }

  /** How `Query` ends, for a listener awaiting `name` among messages of type `kinds`: a
      failed subscription or first send ends it at once; otherwise it finds the first
      accepted message naming `name` that arrives before the deadline, with that message's
      address, and times out exactly when none arrives. */
  function Await(kinds: set<string>, listenOk: bool, sendOk: bool, name: string, arrivals: seq<Inbound>): (r: QueryOutcome)
    ensures !listenOk ==> r == ListenFailed
    ensures listenOk && !sendOk ==> r == SendFailed
    ensures listenOk && sendOk ==> r.Found? || r == Timeout
    ensures listenOk && sendOk ==> (r == Timeout <==> forall i :: 0 <= i < |arrivals| ==> !Matches(kinds, arrivals[i], name))
    ensures listenOk && sendOk ==> (r.Found? <==> exists i :: 0 <= i < |arrivals| && Matches(kinds, arrivals[i], name))
    ensures r.Found? ==> r.service.name == name && FirstAddr(kinds, arrivals, name) == Some(r.service.addr)
  {
    if !listenOk then ListenFailed
    else if !sendOk then SendFailed
    else
      var f0 := Filter({name}, [], false);
      var f := Run(kinds, f0, arrivals);
      RunInv(kinds, {name}, f0, arrivals);
      RemainingIff(kinds, f0, arrivals, name);
      if |f.emitted| > 0 then
        EmittedFromFirst(kinds, f0, arrivals, 0);
        Found(f.emitted[0])
      else
        assert Names(f.emitted) == {};
        Timeout
  }

  /** `Query` as written: it waits on `ListenFor`, which accepts only announcements; the
      first announcement of the name before the deadline completes it, else it times out. */
  function QueryAsWritten(listenOk: bool, sendOk: bool, name: string, arrivals: seq<Inbound>): (r: QueryOutcome)
    ensures !listenOk ==> r == ListenFailed
    ensures listenOk && !sendOk ==> r == SendFailed
    ensures listenOk && sendOk ==> r.Found? || r == Timeout
    ensures listenOk && sendOk ==> (r.Found? <==> exists i :: 0 <= i < |arrivals| && Matches({TypeAnnounce}, arrivals[i], name))
    ensures r.Found? ==> r.service.name == name && FirstAddr({TypeAnnounce}, arrivals, name) == Some(r.service.addr)
  {
    Await({TypeAnnounce}, listenOk, sendOk, name, arrivals)
  }

  /** `Query` as its documentation intends: the first announcement of, or response for, the
      name before the deadline completes it, else it times out. */
  function Query(listenOk: bool, sendOk: bool, name: string, arrivals: seq<Inbound>): (r: QueryOutcome)
    ensures !listenOk ==> r == ListenFailed
    ensures listenOk && !sendOk ==> r == SendFailed
    ensures listenOk && sendOk ==> r.Found? || r == Timeout
    ensures listenOk && sendOk ==> (r.Found? <==> exists i :: 0 <= i < |arrivals| && Matches({TypeAnnounce, TypeResponse}, arrivals[i], name))
    ensures r.Found? ==> r.service.name == name && FirstAddr({TypeAnnounce, TypeResponse}, arrivals, name) == Some(r.service.addr)
  {
    Await({TypeAnnounce, TypeResponse}, listenOk, sendOk, name, arrivals)
  }

  /** An empty name can never be found: no decodable message carries an empty name. */
  lemma QueryEmptyNameTimesOut(kinds: set<string>, arrivals: seq<Inbound>)
    ensures Await(kinds, true, true, "", arrivals) == Timeout
  {
  }

  /** As written, nothing a responder sends can complete a query: whatever the responder
      read, the query times out on its answers. */
  lemma QueryAsWrittenIgnoresAnswers(srcAddr: string, name: string, incoming: seq<Inbound>, src: string)
    ensures QueryAsWritten(true, true, name, Deliver(Answers(srcAddr, name, incoming), src)) == Timeout
  {
    var arrivals := Deliver(Answers(srcAddr, name, incoming), src);
    forall i | 0 <= i < |arrivals|
      ensures !Matches({TypeAnnounce}, arrivals[i], name)
    {
      DecodeOfEncode(Srvc(TypeResponse, srcAddr, name));
    }
  }

  /** The answer a responder for `name` at `addr` sends to a query for `name`. */
  function AnswerToQuery(addr: string, name: string, queryAddr: string, src: string): seq<Inbound>
  {
    Deliver(Answers(addr, name, [Inbound(QueryPayload(queryAddr, name), src, false)]), src)
  }

  /** A responder answers a query for its name with exactly one response. */
  lemma AnswerToQueryIsOneResponse(addr: string, name: string, queryAddr: string, src: string)
    requires WellFormed(Srvc(TypeQuery, queryAddr, name))
    ensures AnswerToQuery(addr, name, queryAddr, src) == [Inbound(ResponsePayload(addr, name), src, false)]
  {
    var m := Inbound(QueryPayload(queryAddr, name), src, false);
    TriggersOnEncoded(name, Srvc(TypeQuery, queryAddr, name), src, false);
    assert Answers(addr, name, [m]) == [ResponsePayload(addr, name)] + Answers(addr, name, []);
  }

  /** Discrepancy: a responder's answer to the query leaves the query as written waiting,
      while the intended query finds the responder's name and address. */
  lemma QueryAnsweredByResponder(addr: string, name: string, queryAddr: string, src: string)
    requires WellFormed(Srvc(TypeQuery, queryAddr, name)) && WellFormed(Srvc(TypeResponse, addr, name))
    ensures QueryAsWritten(true, true, name, AnswerToQuery(addr, name, queryAddr, src)) == Timeout
    ensures Query(true, true, name, AnswerToQuery(addr, name, queryAddr, src)) == Found(Service(name, addr))
  {
    AnswerToQueryIsOneResponse(addr, name, queryAddr, src);
    QueryAsWrittenIgnoresAnswers(addr, name, [Inbound(QueryPayload(queryAddr, name), src, false)], src);
    var arrivals := AnswerToQuery(addr, name, queryAddr, src);
    RoundTrip(Srvc(TypeResponse, addr, name));
    assert Matches({TypeAnnounce, TypeResponse}, arrivals[0], name);
    assert FirstAddr({TypeAnnounce, TypeResponse}, arrivals, name) == Some(addr);
  }

  /** A service `svc1` announced at `10.0.0.1:9000` is found by a query from `10.0.0.2:1`
      once its responder's answer arrives. */
  lemma QueryFindsAnnouncedService(src: string)
    ensures Announce("10.0.0.1:9000", "svc1").Ok?
    ensures Query(true, true, "svc1", AnswerToQuery(Announce("10.0.0.1:9000", "svc1").value.responderAddr,
                                                    Announce("10.0.0.1:9000", "svc1").value.responderName,
                                                    "10.0.0.2:1", src))
            == Found(Service("svc1", "10.0.0.1:9000"))
  {
    QueryAnsweredByResponder("10.0.0.1:9000", "svc1", "10.0.0.2:1", src);
  }
}
