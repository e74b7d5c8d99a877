/** The background responder an announcement starts: it answers every report, and every
    query for its own name, with a response carrying its own address and name. */
module Responder {
  import opened Wrappers
  import opened Codec
  import opened Transport

  /** The decision made for each datagram: answer when the payload decodes and is a report,
      or a query for `name`. Undecodable payloads are skipped. */
  predicate Triggers(name: string, m: Inbound)
  {
    match Decode(m.message)
    case Ok(s) => s.typ == TypeReport || (s.typ == TypeQuery && s.name == name)
    case Err(_) => false
  }

  /** Number of datagrams in `msgs` that trigger a responder for `name`. */
  function CountTriggers(name: string, msgs: seq<Inbound>): nat
    decreases |msgs|
  {
    if |msgs| == 0 then 0
    else (if Triggers(name, msgs[0]) then 1 else 0) + CountTriggers(name, msgs[1..])
  }

  /** The payload `Respond` broadcasts; it decodes to a response carrying this address and
      name whenever those fields are well formed. */
  function ResponsePayload(srcAddr: string, name: string): (r: string)
    ensures WellFormed(Srvc(TypeResponse, srcAddr, name)) ==> Decode(r) == Ok(Srvc(TypeResponse, srcAddr, name))
  {
    DecodeOfEncode(Srvc(TypeResponse, srcAddr, name));
    Encode(Srvc(TypeResponse, srcAddr, name))
  }

  /** The responses sent while reading `msgs`, one per triggering datagram in arrival order;
      every one names this responder, and there are none exactly when nothing triggered. */
  function Answers(srcAddr: string, name: string, msgs: seq<Inbound>): (r: seq<string>)
    ensures |r| == CountTriggers(name, msgs) <= |msgs|
    ensures forall i :: 0 <= i < |r| ==> r[i] == ResponsePayload(srcAddr, name)
    ensures r == [] <==> forall i :: 0 <= i < |msgs| ==> !Triggers(name, msgs[i])
    decreases |msgs|
  {
    if |msgs| == 0 then []
    else
      var rest := Answers(srcAddr, name, msgs[1..]);
      assert forall i :: 1 <= i < |msgs| ==> msgs[i] == msgs[1..][i - 1];
      (if Triggers(name, msgs[0]) then [ResponsePayload(srcAddr, name)] else []) + rest
  }

  /** `respondToQueries`: with a failed subscription nothing is ever received, so nothing
      is answered; otherwise every triggering datagram is answered. */
  function RespondToQueries(subscribed: bool, srcAddr: string, name: string, msgs: seq<Inbound>): (r: seq<string>)
    ensures !subscribed ==> r == []
    ensures subscribed ==> |r| == CountTriggers(name, msgs)
    ensures subscribed ==> (r == [] <==> forall i :: 0 <= i < |msgs| ==> !Triggers(name, msgs[i]))
    ensures forall i :: 0 <= i < |r| ==> r[i] == ResponsePayload(srcAddr, name)
  {
    if subscribed then Answers(srcAddr, name, msgs) else []
  }

  /** The responder keeps no state: answering two runs in turn is answering their concatenation. */
  lemma {:induction false} AnswersAppend(srcAddr: string, name: string, a: seq<Inbound>, b: seq<Inbound>)
    ensures Answers(srcAddr, name, a + b) == Answers(srcAddr, name, a) + Answers(srcAddr, name, b)
    decreases |a|
  {
    if |a| == 0 {
      assert a + b == b;
    } else {
      assert (a + b)[1..] == a[1..] + b;
      AnswersAppend(srcAddr, name, a[1..], b);
    }
  }

  /** Which encoded messages a responder for `name` answers: a well-formed report of any
      name, a well-formed query exactly when it asks for `name`, and never an announcement,
      a response, or a message whose encoding cannot be decoded. */
  lemma TriggersOnEncoded(name: string, s: Srvc, src: string, failed: bool)
    ensures Triggers(name, Inbound(Encode(s), src, failed))
            <==> WellFormed(s) && (s.typ == TypeReport || (s.typ == TypeQuery && s.name == name))
  {
    DecodeOfEncode(s);
  }

  /** Responders never answer one another, so answers cannot echo around the group. */
  lemma ResponsesNotAnswered(name: string, srcAddr: string, other: string, src: string)
    ensures !Triggers(name, Inbound(ResponsePayload(srcAddr, other), src, false))
  {
    TriggersOnEncoded(name, Srvc(TypeResponse, srcAddr, other), src, false);
  }

  /** A report with an empty name is never answered, because it cannot be decoded. */
  lemma ReportWithoutNameNotAnswered(name: string, addr: string, src: string)
    ensures !Triggers(name, Inbound(Encode(Srvc(TypeReport, addr, "")), src, false))
  {
    TriggersOnEncoded(name, Srvc(TypeReport, addr, ""), src, false);
  }
}
