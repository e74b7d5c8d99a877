/** The filter behind `ListenFor`: it consumes inbound datagrams in arrival order, keeps a
    set of names still awaited, hands out one service per awaited name the first time that
    name is heard, and closes its output once no name is awaited any more. */
module Listener {
  import opened Wrappers
  import opened Codec
  import opened Transport

  /** A discovered service: a name and the address its message claims. */
  datatype Service = Service(name: string, addr: string)

  /** State of one filter: names still awaited, services handed out so far (oldest
      first), and whether the output has been closed. */
  datatype Filter = Filter(pending: set<string>, emitted: seq<Service>, closed: bool)

  /** The message in `m` when its payload decodes and its type is one of `kinds`: what passes
      is a well-formed message of an accepted type encoded as the payload, and every such
      message passes. */
  function Accepted(kinds: set<string>, m: Inbound): (r: Option<Srvc>)
    ensures r.Some? ==> WellFormed(r.value) && r.value.typ in kinds && Encode(r.value) == m.message
    ensures forall s :: WellFormed(s) && s.typ in kinds && Encode(s) == m.message ==> r == Some(s)
  {
    DecodeEncoded(m.message);
    match Decode(m.message)
    case Ok(s) => if s.typ in kinds then Some(s) else None
    case Err(_) => None
  }

  /** `m` is an accepted message naming `n`. */
  predicate Matches(kinds: set<string>, m: Inbound, n: string)
  {
    Accepted(kinds, m).Some? && Accepted(kinds, m).value.name == n
  }

  /** The address carried by the first accepted message in `msgs` that names `n`. */
  function FirstAddr(kinds: set<string>, msgs: seq<Inbound>, n: string): (r: Option<string>)
    ensures r.None? <==> forall i :: 0 <= i < |msgs| ==> !Matches(kinds, msgs[i], n)
    decreases |msgs|
  {
    if |msgs| == 0 then None
    else if Matches(kinds, msgs[0], n) then Some(Accepted(kinds, msgs[0]).value.srcAddr)
    else
      var r := FirstAddr(kinds, msgs[1..], n);
      assert forall i :: 1 <= i < |msgs| ==> msgs[i] == msgs[1..][i - 1];
      r
  }

  /** The names of a sequence of services. */
  function Names(e: seq<Service>): set<string>
  {
    set s | s in e :: s.name
  }

  /** No name is handed out twice. */
  predicate Distinct(e: seq<Service>)
  {
    forall i, j :: 0 <= i < j < |e| ==> e[i].name != e[j].name
  }

  /** One iteration of the loop: undecodable and unaccepted messages change nothing; an
      accepted message naming an awaited name hands out its service and stops awaiting
      that name; after any accepted message the output closes if nothing is awaited. */
  function Step(kinds: set<string>, f: Filter, m: Inbound): (g: Filter)
    ensures Accepted(kinds, m).None? ==> g == f
    ensures g.pending <= f.pending
  {
    match Accepted(kinds, m)
    case None => f
    case Some(s) =>
      var h := if s.name in f.pending
               then Filter(f.pending - {s.name}, f.emitted + [Service(s.name, s.srcAddr)], f.closed)
               else f;
      h.(closed := h.pending == {})
  }

  /** The loop over a finite run of datagrams; once closed, nothing more is read. The
      awaited set only shrinks, and services already handed out stay handed out, in order. */
  function Run(kinds: set<string>, f: Filter, msgs: seq<Inbound>): (r: Filter)
    ensures r.pending <= f.pending
    ensures f.emitted <= r.emitted
    decreases |msgs|
  {
    if f.closed || |msgs| == 0 then f else Run(kinds, Step(kinds, f, msgs[0]), msgs[1..])
  }

  /** The awaited set built from the requested names; repeated names collapse. */
  function Pending(names: seq<string>): set<string>
  {
    set n | n in names
  }

  /** A fresh filter for `names`. */
  function Start(names: seq<string>): Filter
  {
    Filter(Pending(names), [], false)
  }

  /** What a filter keeps true relative to the set `p0` it started with: the awaited names
      are exactly the started ones not yet handed out, each handed-out name was requested
      and appears once, and the output is closed when (for a non-empty start, exactly when)
      nothing is awaited. */
  ghost predicate Inv(p0: set<string>, f: Filter)
  {
    && Names(f.emitted) <= p0
    && Distinct(f.emitted)
    && f.pending == p0 - Names(f.emitted)
    && (f.closed ==> f.pending == {})
    && (p0 != {} ==> (f.closed <==> f.pending == {}))
  }

  lemma NamesAppend(e: seq<Service>, s: Service)
    ensures Names(e + [s]) == Names(e) + {s.name}
  {
    assert forall x :: x in e + [s] <==> x in e || x == s;
  }

  lemma StepInv(kinds: set<string>, p0: set<string>, f: Filter, m: Inbound)
    requires Inv(p0, f) && !f.closed
    ensures Inv(p0, Step(kinds, f, m))
  {
    match Accepted(kinds, m)
    case None =>
    case Some(s) =>
      if s.name in f.pending {
        NamesAppend(f.emitted, Service(s.name, s.srcAddr));
        var e := f.emitted + [Service(s.name, s.srcAddr)];
        forall i, j | 0 <= i < j < |e|
          ensures e[i].name != e[j].name
        {
          if j == |e| - 1 {
            assert e[i] in f.emitted;
          }
        }
      }
  }

  /** The filter keeps its invariant over any run of datagrams. */
  lemma {:induction false} RunInv(kinds: set<string>, p0: set<string>, f: Filter, msgs: seq<Inbound>)
    requires Inv(p0, f)
    ensures Inv(p0, Run(kinds, f, msgs))
    decreases |msgs|
  {
    if !f.closed && |msgs| > 0 {
      StepInv(kinds, p0, f, msgs[0]);
      RunInv(kinds, p0, Step(kinds, f, msgs[0]), msgs[1..]);
    }
  }

  /** Feeding two runs one after the other is feeding their concatenation. */
  lemma {:induction false} RunAppend(kinds: set<string>, f: Filter, a: seq<Inbound>, b: seq<Inbound>)
    ensures Run(kinds, f, a + b) == Run(kinds, Run(kinds, f, a), b)
    decreases |a|
  {
    if |a| == 0 {
      assert a + b == b;
    } else if !f.closed {
      assert (a + b)[1..] == a[1..] + b;
      RunAppend(kinds, Step(kinds, f, a[0]), a[1..], b);
    }
  }

  /** Once the output is closed, later datagrams change nothing: no service is handed out after closing. */
  lemma NothingAfterClose(kinds: set<string>, f: Filter, a: seq<Inbound>, b: seq<Inbound>)
    requires Run(kinds, f, a).closed
    ensures Run(kinds, f, a + b) == Run(kinds, f, a)
  {
    RunAppend(kinds, f, a, b);
  }

  /** The output closes only on an accepted message, and only with nothing left awaited. */
  lemma ClosesOnAccepted(kinds: set<string>, f: Filter, a: seq<Inbound>, m: Inbound)
    requires !Run(kinds, f, a).closed && Run(kinds, f, a + [m]).closed
    ensures Accepted(kinds, m).Some?
    ensures Run(kinds, f, a + [m]).pending == {}
  {
    RunAppend(kinds, f, a, [m]);
    var g := Run(kinds, f, a);
    assert Run(kinds, g, [m]) == Run(kinds, Step(kinds, g, m), []);
  }

  /** An awaited name is still awaited after a run exactly when no accepted message in the
      run names it. */
  lemma {:induction false} RemainingIff(kinds: set<string>, f: Filter, msgs: seq<Inbound>, n: string)
    requires f.closed ==> f.pending == {}
    requires n in f.pending
    ensures n in Run(kinds, f, msgs).pending <==> forall i :: 0 <= i < |msgs| ==> !Matches(kinds, msgs[i], n)
    decreases |msgs|
  {
    if |msgs| > 0 {
      var g := Step(kinds, f, msgs[0]);
      assert forall i :: 1 <= i < |msgs| ==> msgs[i] == msgs[1..][i - 1];
      if !Matches(kinds, msgs[0], n) {
        RemainingIff(kinds, g, msgs[1..], n);
      }
    }
  }

  /** Every service handed out during a run was awaited when the run began, and carries the
      address of the first accepted message in the run naming it. */
  lemma {:induction false} EmittedFromFirst(kinds: set<string>, f: Filter, msgs: seq<Inbound>, k: int)
    requires f.closed ==> f.pending == {}
    requires Names(f.emitted) !! f.pending
    requires |f.emitted| <= k < |Run(kinds, f, msgs).emitted|
    ensures Run(kinds, f, msgs).emitted[k].name in f.pending
    ensures FirstAddr(kinds, msgs, Run(kinds, f, msgs).emitted[k].name) == Some(Run(kinds, f, msgs).emitted[k].addr)
    decreases |msgs|
  {
    var r := Run(kinds, f, msgs);
    var g := Step(kinds, f, msgs[0]);
    assert r == Run(kinds, g, msgs[1..]);
    match Accepted(kinds, msgs[0])
    case None =>
      EmittedFromFirst(kinds, g, msgs[1..], k);
    case Some(s) =>
      if s.name in f.pending {
        NamesAppend(f.emitted, Service(s.name, s.srcAddr));
        if k == |f.emitted| {
          assert r.emitted[k] == r.emitted[..|g.emitted|][k] == g.emitted[k];
        } else {
          EmittedFromFirst(kinds, g, msgs[1..], k);
        }
      } else {
        EmittedFromFirst(kinds, g, msgs[1..], k);
      }
  }

  /** `listenfor` over the datagrams it reads: it awaits announcements of the requested
      names. Handed-out names were requested and appear once, the awaited set is the
      requested names minus those handed out, and the output is closed only when nothing
      is awaited (for a non-empty request, exactly then). */
  function ListenFor(names: seq<string>, msgs: seq<Inbound>): (r: Filter)
    ensures r.pending <= Pending(names)
    ensures forall i :: 0 <= i < |r.emitted| ==> r.emitted[i].name in names
    ensures Distinct(r.emitted)
    ensures r.pending == Pending(names) - Names(r.emitted)
    ensures r.closed ==> r.pending == {}
    ensures names != [] ==> (r.closed <==> r.pending == {})
  {
    var r := Run({TypeAnnounce}, Start(names), msgs);
    RunInv({TypeAnnounce}, Pending(names), Start(names), msgs);
    assert names != [] ==> names[0] in Pending(names);
    assert forall i :: 0 <= i < |r.emitted| ==> r.emitted[i] in r.emitted && r.emitted[i].name in Names(r.emitted);
    r
  }

  /** A requested name is still awaited exactly when no announcement of it was read. */
  lemma ListenForRemaining(names: seq<string>, msgs: seq<Inbound>, n: string)
    requires n in names
    ensures n in ListenFor(names, msgs).pending
            <==> forall i :: 0 <= i < |msgs| ==> !Matches({TypeAnnounce}, msgs[i], n)
  {
    RemainingIff({TypeAnnounce}, Start(names), msgs, n);
  }

  /** Each handed-out service is named by the first announcement of that name that was
      read, and its address is the one that announcement carries in its payload. */
  lemma ListenForFirstAnnouncement(names: seq<string>, msgs: seq<Inbound>, k: int)
    requires 0 <= k < |ListenFor(names, msgs).emitted|
    ensures FirstAddr({TypeAnnounce}, msgs, ListenFor(names, msgs).emitted[k].name)
            == Some(ListenFor(names, msgs).emitted[k].addr)
  {
    EmittedFromFirst({TypeAnnounce}, Start(names), msgs, k);
  }

  /** With no names requested nothing is handed out, and the output closes exactly when
      some announcement, for any name, has been read. */
  lemma {:induction false} ListenForNoNames(msgs: seq<Inbound>)
    ensures ListenFor([], msgs).emitted == []
    ensures ListenFor([], msgs).closed <==> exists i :: 0 <= i < |msgs| && Accepted({TypeAnnounce}, msgs[i]).Some?
  {
    NoNamesRun(Start([]), msgs);
  }

  lemma {:induction false} NoNamesRun(f: Filter, msgs: seq<Inbound>)
    requires f.pending == {} && f.emitted == [] && !f.closed
    ensures Run({TypeAnnounce}, f, msgs).emitted == []
    ensures Run({TypeAnnounce}, f, msgs).closed <==> exists i :: 0 <= i < |msgs| && Accepted({TypeAnnounce}, msgs[i]).Some?
    decreases |msgs|
  {
    if |msgs| > 0 {
      if Accepted({TypeAnnounce}, msgs[0]).None? {
        NoNamesRun(f, msgs[1..]);
        assert forall i :: 1 <= i < |msgs| ==> msgs[i] == msgs[1..][i - 1];
        assert forall i :: 0 < i < |msgs| ==> msgs[1..][i - 1] == msgs[i];
      }
    }
  }

  /** The filter reads only the payload: the datagram's sender and error flag do not
      influence what is handed out. */
  lemma {:induction false} PayloadOnly(kinds: set<string>, f: Filter, msgs: seq<Inbound>, msgs': seq<Inbound>)
    requires |msgs| == |msgs'|
    requires forall i :: 0 <= i < |msgs| ==> msgs[i].message == msgs'[i].message
    ensures Run(kinds, f, msgs) == Run(kinds, f, msgs')
    decreases |msgs|
  {
    if !f.closed && |msgs| > 0 {
      assert Step(kinds, f, msgs[0]) == Step(kinds, f, msgs'[0]);
      PayloadOnly(kinds, Step(kinds, f, msgs[0]), msgs[1..], msgs'[1..]);
    }
  }

  /** The datagram for an announcement. */
  function AnnouncementFrom(addr: string, name: string, src: string): Inbound
  {
    Inbound(Encode(Srvc(TypeAnnounce, addr, name)), src, false)
  }

  /** Two names announced one after the other are handed out in that order and the output closes. */
  lemma ListenForTwoNames(a: string, b: string, addrA: string, addrB: string, src: string)
    requires WellFormed(Srvc(TypeAnnounce, addrA, a)) && WellFormed(Srvc(TypeAnnounce, addrB, b))
    requires a != b
    ensures ListenFor([a, b], [AnnouncementFrom(addrA, a, src), AnnouncementFrom(addrB, b, src)])
            == Filter({}, [Service(a, addrA), Service(b, addrB)], true)
  {
    var ma := AnnouncementFrom(addrA, a, src);
    var mb := AnnouncementFrom(addrB, b, src);
    RoundTrip(Srvc(TypeAnnounce, addrA, a));
    RoundTrip(Srvc(TypeAnnounce, addrB, b));
    var f0 := Start([a, b]);
    assert f0.pending == {a, b};
    assert Accepted({TypeAnnounce}, ma) == Some(Srvc(TypeAnnounce, addrA, a));
    assert Accepted({TypeAnnounce}, mb) == Some(Srvc(TypeAnnounce, addrB, b));
    assert {a, b} - {a} == {b};
    var f1 := Step({TypeAnnounce}, f0, ma);
    assert f1 == Filter({b}, [Service(a, addrA)], false);
    var f2 := Step({TypeAnnounce}, f1, mb);
    assert f2 == Filter({}, [Service(a, addrA), Service(b, addrB)], true);
    assert [ma, mb][1..] == [mb];
    assert Run({TypeAnnounce}, f1, [mb]) == Run({TypeAnnounce}, f2, []);
  }

  /** A second announcement of an already handed-out name is ignored. */
  lemma ListenForRepeatIgnored(a: string, b: string, addr1: string, addr2: string, src: string)
    requires WellFormed(Srvc(TypeAnnounce, addr1, a)) && WellFormed(Srvc(TypeAnnounce, addr2, a))
    requires a != b
    ensures ListenFor([a, b], [AnnouncementFrom(addr1, a, src), AnnouncementFrom(addr2, a, src)])
            == Filter({b}, [Service(a, addr1)], false)
  {
    var m1 := AnnouncementFrom(addr1, a, src);
    var m2 := AnnouncementFrom(addr2, a, src);
    RoundTrip(Srvc(TypeAnnounce, addr1, a));
    RoundTrip(Srvc(TypeAnnounce, addr2, a));
    var f0 := Start([a, b]);
    assert f0.pending == {a, b};
    assert Accepted({TypeAnnounce}, m1) == Some(Srvc(TypeAnnounce, addr1, a));
    assert Accepted({TypeAnnounce}, m2) == Some(Srvc(TypeAnnounce, addr2, a));
    assert {a, b} - {a} == {b};
    var f1 := Step({TypeAnnounce}, f0, m1);
    assert f1 == Filter({b}, [Service(a, addr1)], false);
    assert Step({TypeAnnounce}, f1, m2) == f1;
    assert [m1, m2][1..] == [m2];
    assert Run({TypeAnnounce}, f1, [m2]) == Run({TypeAnnounce}, f1, []);
  }

  /** Every well-formed message of an accepted type passes the filter, whatever the datagram's
      sender or error flag. */
  lemma AcceptedEncoded(kinds: set<string>, s: Srvc, src: string, failed: bool)
    requires WellFormed(s) && s.typ in kinds
    ensures Accepted(kinds, Inbound(Encode(s), src, failed)) == Some(s)
  {
    RoundTrip(s);
  }
}
