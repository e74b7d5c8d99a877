/** The flat text record every discovery datagram carries:
    `srvc;<type>;<srcAddr>;<name>`. */
module Codec {
  import opened Wrappers
  import opened Fields

  /** Field delimiter of the wire format. */
  const Sep: char := ';'

  /** Literal tag in field 0 of every record. */
  const Tag: string := "srvc"

  /** The four message types producers use; the decoder accepts any type. */
  const TypeAnnounce: string := "announce"
  const TypeQuery: string := "query"
  const TypeResponse: string := "response"
  const TypeReport: string := "report"

  /** One protocol message: its type, the address it claims to come from, and a service name. */
  datatype Srvc = Srvc(typ: string, srcAddr: string, name: string)

  /** Why a payload was rejected: wrong field count or tag, or an empty field. */
  datatype DecodeError = MissingProtocol | MissingField

  /** A message survives the wire intact: every field is non-empty and free of the delimiter. */
  predicate WellFormed(s: Srvc)
  {
    && s.typ != "" && s.srcAddr != "" && s.name != ""
    && Sep !in s.typ && Sep !in s.srcAddr && Sep !in s.name
  }

  /** The record for `s`, with no escaping of the delimiter. */
  function Encode(s: Srvc): string
  {
    Tag + [Sep] + s.typ + [Sep] + s.srcAddr + [Sep] + s.name
  }

  /** Parses a payload: exactly four fields with the tag first, and three non-empty fields after it.
      Whatever it accepts is well formed and is exactly the encoding of what it returns;
      a payload without exactly three delimiters is a protocol error. */
  function Decode(msg: string): (r: Result<Srvc, DecodeError>)
    ensures r.Ok? ==> WellFormed(r.value) && Encode(r.value) == msg
    ensures Count(msg, Sep) != 3 ==> r == Err(MissingProtocol)
    ensures |Split(msg, Sep)| == 4 && Split(msg, Sep)[0] != Tag ==> r == Err(MissingProtocol)
  {
    var ss := Split(msg, Sep);
    if |ss| != 4 || ss[0] != Tag then Err(MissingProtocol)
    else if ss[1] == "" || ss[2] == "" || ss[3] == "" then Err(MissingField)
    else
      var s := Srvc(ss[1], ss[2], ss[3]);
      JoinSplit(msg, Sep);
      EncodeIsJoin(s);
      assert ss == [Tag, s.typ, s.srcAddr, s.name];
      Ok(s)
  }

  lemma EncodeIsJoin(s: Srvc)
    ensures Encode(s) == Join([Tag, s.typ, s.srcAddr, s.name], Sep)
  {
    var fs := [Tag, s.typ, s.srcAddr, s.name];
    assert fs[1..][1..][1..] == [s.name];
    assert Join([s.name], Sep) == s.name;
    assert fs[1..][1..] == [s.srcAddr, s.name];
    assert Join([s.srcAddr, s.name], Sep) == s.srcAddr + [Sep] + s.name;
    assert fs[1..] == [s.typ, s.srcAddr, s.name];
    assert Join(fs[1..], Sep) == s.typ + [Sep] + (s.srcAddr + [Sep] + s.name);
  }

  /** When no field contains the delimiter, splitting a record recovers exactly the tag and
      the three fields. */
  lemma SplitEncode(s: Srvc)
    requires Sep !in s.typ && Sep !in s.srcAddr && Sep !in s.name
    ensures Split(Encode(s), Sep) == [Tag, s.typ, s.srcAddr, s.name]
  {
    EncodeIsJoin(s);
    SplitJoin([Tag, s.typ, s.srcAddr, s.name], Sep);
  }

  /** Encoding spends exactly three delimiters of its own, plus any the fields contain. */
  lemma EncodeCount(s: Srvc)
    ensures Count(Encode(s), Sep) == 3 + Count(s.typ, Sep) + Count(s.srcAddr, Sep) + Count(s.name, Sep)
  {
    assert Count(Tag, Sep) == 0 by { CountZero(Tag, Sep); }
    assert Count([Sep], Sep) == 1;
    CountAppend(Tag, [Sep], Sep);
    CountAppend(Tag + [Sep], s.typ, Sep);
    CountAppend(Tag + [Sep] + s.typ, [Sep], Sep);
    CountAppend(Tag + [Sep] + s.typ + [Sep], s.srcAddr, Sep);
    CountAppend(Tag + [Sep] + s.typ + [Sep] + s.srcAddr, [Sep], Sep);
    CountAppend(Tag + [Sep] + s.typ + [Sep] + s.srcAddr + [Sep], s.name, Sep);
  }

  /** What decoding makes of an encoded message: the message itself exactly when it is well
      formed; a protocol error when a field contains the delimiter (framing breaks); a
      missing-field error when the fields are delimiter-free but one is empty. */
  lemma DecodeOfEncode(s: Srvc)
    ensures Decode(Encode(s)) == Ok(s) <==> WellFormed(s)
    ensures Sep in s.typ || Sep in s.srcAddr || Sep in s.name ==> Decode(Encode(s)) == Err(MissingProtocol)
    ensures Sep !in s.typ && Sep !in s.srcAddr && Sep !in s.name && (s.typ == "" || s.srcAddr == "" || s.name == "")
            ==> Decode(Encode(s)) == Err(MissingField)
  {
    EncodeCount(s);
    CountZero(s.typ, Sep);
    CountZero(s.srcAddr, Sep);
    CountZero(s.name, Sep);
    if Sep !in s.typ && Sep !in s.srcAddr && Sep !in s.name {
      SplitEncode(s);
    }
  }

  /** Round trip: a well-formed message of any type, known or not, decodes back to itself. */
  lemma RoundTrip(s: Srvc)
    requires WellFormed(s)
    ensures Decode(Encode(s)) == Ok(s)
  {
    DecodeOfEncode(s);
  }

  /** A payload that is the encoding of a well-formed message decodes to that message. */
  lemma DecodeEncoded(msg: string)
    ensures forall s :: WellFormed(s) && Encode(s) == msg ==> Decode(msg) == Ok(s)
  {
    forall s | WellFormed(s) && Encode(s) == msg
      ensures Decode(msg) == Ok(s)
    {
      RoundTrip(s);
    }
  }

  /** A payload decodes exactly when it is the encoding of some well-formed message. */
  lemma DecodeSucceedsIff(msg: string)
    ensures Decode(msg).Ok? <==> exists s :: WellFormed(s) && Encode(s) == msg
  {
    if exists s :: WellFormed(s) && Encode(s) == msg {
      var s :| WellFormed(s) && Encode(s) == msg;
      RoundTrip(s);
    }
  }

  /** Every accepted payload begins with the tag and its delimiter. */
  lemma DecodedStartsWithTag(msg: string)
    requires Decode(msg).Ok?
    ensures |msg| >= 5 && msg[..5] == Tag + [Sep]
  {
    var s := Decode(msg).value;
    assert msg == (Tag + [Sep]) + (s.typ + [Sep] + s.srcAddr + [Sep] + s.name);
  }

  /** Three fields are too few: `srvc;a;b` is a protocol error. */
  lemma DecodeTooFewFields()
    ensures Decode("srvc;a;b") == Err(MissingProtocol)
  {
    var m := "srvc;a;b";
    assert m == Tag + [Sep] + "a" + [Sep] + "b";
    CountZero(Tag, Sep);
    CountZero("a", Sep);
    CountZero("b", Sep);
    CountAppend(Tag, [Sep], Sep);
    CountAppend(Tag + [Sep], "a", Sep);
    CountAppend(Tag + [Sep] + "a", [Sep], Sep);
    CountAppend(Tag + [Sep] + "a" + [Sep], "b", Sep);
  }

  /** A first field other than the tag is a protocol error: `x;a;b;c` is rejected. */
  lemma DecodeWrongTag()
    ensures Decode("x;a;b;c").Err?
  {
    if Decode("x;a;b;c").Ok? {
      DecodedStartsWithTag("x;a;b;c");
      assert false;
    }
  }

  /** An empty type is a missing field: `srvc;;b;c` is rejected. */
  lemma DecodeEmptyType()
    ensures Decode("srvc;;b;c") == Err(MissingField)
  {
    assert "srvc;;b;c" == Encode(Srvc("", "b", "c"));
    DecodeOfEncode(Srvc("", "b", "c"));
  }

  /** A report with an empty name, such as `srvc;report;addr;`, is rejected like any
      other message with an empty field. */
  lemma DecodeReportWithoutName(addr: string)
    requires Sep !in addr
    ensures Decode(Encode(Srvc(TypeReport, addr, ""))) == Err(MissingField)
  {
    DecodeOfEncode(Srvc(TypeReport, addr, ""));
  }

  /** The type is not checked against the four known ones: `srvc;hello;a;b` decodes. */
  lemma DecodeUnknownType()
    ensures Decode("srvc;hello;a;b") == Ok(Srvc("hello", "a", "b"))
  {
    assert "srvc;hello;a;b" == Encode(Srvc("hello", "a", "b"));
    RoundTrip(Srvc("hello", "a", "b"));
  }
}
