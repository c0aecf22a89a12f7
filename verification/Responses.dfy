/** The two response writers wrapped around every handler: internal/middleware/recovery.go inside
    internal/middleware/logging.go, over the server's own writer. */
module Responses {
  /** What reaches the server's writer. */
  datatype Sent = Header(code: int) | Body(bytes: string)

  /** What a handler does with the writer it is given. */
  datatype Action = WriteHeader(code: int) | Write(bytes: string) | Panic

  const ERROR_BODY := "INTERNAL_ERROR"

  /** The server's writer panics on anything else. */
  predicate ValidCode(code: int) { 100 <= code <= 999 }

  /** Informational codes are sent at once and leave the final status open. */
  predicate FinalCode(code: int) { code == 101 || 200 <= code <= 999 }

  /** The status the client ends up with: the first final one, or 200 once a body starts or the
      handler returns. */
  function StatusSent(sent: seq<Sent>): int {
    if sent == [] || sent[0].Body? then 200
    else if FinalCode(sent[0].code) then sent[0].code
    else StatusSent(sent[1..])
  }

  /** The fields of the three writers. */
  datatype Chain = Chain(sent: seq<Sent>, statusCode: int, wroteHeader: bool)

  const FRESH := Chain([], 0, false)

  /** Each step says whether it panicked. */
  function LogHeader(c: Chain, code: int): (Chain, bool) {
    if c.statusCode != 0 then (c, false)
    else if ValidCode(code) then (c.(statusCode := code, sent := c.sent + [Header(code)]), false)
    else (c.(statusCode := code), true)
  }

  function LogBody(c: Chain, bytes: string): Chain {
    c.(statusCode := if c.statusCode == 0 then 200 else c.statusCode, sent := c.sent + [Body(bytes)])
  }

  function Act(c: Chain, a: Action): (Chain, bool) {
    match a
    case WriteHeader(code) => if c.wroteHeader then (c, false) else LogHeader(c.(wroteHeader := true), code)
    case Write(bytes) =>
      var ready := if c.wroteHeader then c else LogHeader(c.(wroteHeader := true), 200).0;
      (LogBody(ready, bytes), false)
    case Panic => (c, true)
  }

  /** The handler: it stops at the first panic. */
  function Handle(c: Chain, actions: seq<Action>): (Chain, bool)
    decreases |actions|
  {
    if actions == [] then (c, false)
    else
      var (c', panicked) := Act(c, actions[0]);
      if panicked then (c', true) else Handle(c', actions[1..])
  }

  /** The deferred recovery: an error response, unless the handler already opened one. */
  function Recover(c: Chain, panicked: bool): Chain {
    if panicked && !c.wroteHeader then LogBody(LogHeader(c, 500).0, ERROR_BODY) else c
  }

  function Exchange(actions: seq<Action>): Chain {
    Recover(Handle(FRESH, actions).0, Handle(FRESH, actions).1)
  }

  function Logged(c: Chain): int { if c.statusCode == 0 then 200 else c.statusCode }

  // ---- the writers -----------------------------------------------------------------------

  class ResponseWriter {
    var sent: seq<Sent>

    constructor ()
      ensures sent == []
    {
      sent := [];
    }

    method WriteHeader(code: int) returns (panicked: bool)
      modifies this
      ensures panicked == !ValidCode(code)
      ensures sent == if panicked then old(sent) else old(sent) + [Header(code)]
    {
      panicked := !ValidCode(code);
      if !panicked {
        sent := sent + [Header(code)];
      }
    }

    method Write(bytes: string)
      modifies this
      ensures sent == old(sent) + [Body(bytes)]
    {
      sent := sent + [Body(bytes)];
    }
  }

  class LoggingWriter {
    const inner: ResponseWriter
    var statusCode: int

    ghost function State(wroteHeader: bool): Chain
      reads this, inner
    {
      Chain(inner.sent, statusCode, wroteHeader)
    }

    constructor (inner: ResponseWriter)
      ensures this.inner == inner && statusCode == 0
    {
      this.inner, statusCode := inner, 0;
    }

    method WriteHeader(code: int) returns (panicked: bool)
      modifies this, inner
      ensures forall wrote :: (State(wrote), panicked) == LogHeader(old(State(wrote)), code)
    {
      panicked := false;
      if statusCode == 0 {
        statusCode := code;
        panicked := inner.WriteHeader(code);
      }
    }

    method Write(bytes: string)
      modifies this, inner
      ensures forall wrote :: State(wrote) == LogBody(old(State(wrote)), bytes)
    {
      if statusCode == 0 {
        statusCode := 200;
      }
      inner.Write(bytes);
    }
  }

  class RecoveryWriter {
    const inner: LoggingWriter
    var wroteHeader: bool

    ghost function State(): Chain
      reads this, inner, inner.inner
    {
      inner.State(wroteHeader)
    }

    constructor (inner: LoggingWriter)
      ensures this.inner == inner && !wroteHeader
    {
      this.inner, wroteHeader := inner, false;
    }

    method WriteHeader(code: int) returns (panicked: bool)
      modifies this, inner, inner.inner
      ensures (State(), panicked) == Act(old(State()), Action.WriteHeader(code))
    {
      panicked := false;
      if !wroteHeader {
        wroteHeader := true;
        panicked := inner.WriteHeader(code);
      }
    }

    method Write(bytes: string)
      modifies this, inner, inner.inner
      ensures (State(), false) == Act(old(State()), Action.Write(bytes))
    {
      if !wroteHeader {
        wroteHeader := true;
        var _ := inner.WriteHeader(200);
      }
      inner.Write(bytes);
    }
  }

  /** One request through both middlewares; the handler performs `actions`. */
  method Serve(w: ResponseWriter, actions: seq<Action>) returns (logged: int)
    requires w.sent == []
    modifies w
    ensures w.sent == Exchange(actions).sent && logged == Logged(Exchange(actions))
  {
    var lw := new LoggingWriter(w);
    var rw := new RecoveryWriter(lw);
    var panicked, i := false, 0;
    while i < |actions| && !panicked
      invariant 0 <= i <= |actions|
      invariant lw.inner == w && rw.inner == lw
      invariant panicked ==> Handle(FRESH, actions) == (rw.State(), true)
      invariant !panicked ==> Handle(FRESH, actions) == Handle(rw.State(), actions[i..])
      decreases |actions| - i
    {
      match actions[i] {
        case WriteHeader(code) => panicked := rw.WriteHeader(code);
        case Write(bytes) => rw.Write(bytes);
        case Panic => panicked := true;
      }
      i := i + 1;
    }
    if panicked && !rw.wroteHeader {
      var _ := lw.WriteHeader(500);
      lw.Write(ERROR_BODY);
    }
    logged := if lw.statusCode == 0 then 200 else lw.statusCode;
  }

  // ---- main results ----------------------------------------------------------------------

  /** The bodies written up to the first panic. */
  function Bodies(actions: seq<Action>): seq<Sent> {
    if actions == [] || actions[0].Panic? then []
    else (if actions[0].Write? then [Body(actions[0].bytes)] else []) + Bodies(actions[1..])
  }

  /** What a client should see, told without any writer: the first action decides the header. */
  function Expected(actions: seq<Action>): seq<Sent> {
    if actions == [] then []
    else
      match actions[0]
      case Panic => [Header(500), Body(ERROR_BODY)]
      case Write(_) => [Header(200)] + Bodies(actions)
      case WriteHeader(code) => if 100 <= code <= 999 then [Header(code)] + Bodies(actions[1..]) else []
  }

  /** What the log should say: the opening, with zero standing for the default. */
  function ExpectedLog(actions: seq<Action>): int {
    if actions == [] then 200
    else
      match actions[0]
      case Panic => 500
      case Write(_) => 200
      case WriteHeader(code) => if code == 0 then 200 else code
  }

  /** Once a response is open only bodies are added. */
  lemma {:induction false} OpenResponse(c: Chain, actions: seq<Action>)
    requires c.wroteHeader && c.statusCode != 0
    ensures var (c', panicked) := Handle(c, actions);
            c' == c.(sent := c.sent + Bodies(actions))
    decreases |actions|
  {
    if actions != [] && !actions[0].Panic? {
      var c1 := Act(c, actions[0]).0;
      OpenResponse(c1, actions[1..]);
      assert c.sent + Bodies(actions) == c1.sent + Bodies(actions[1..]);
    } else {
      assert c.sent + Bodies(actions) == c.sent;
    }
  }

  /** Two stateful wrappers and a recovery send exactly what the reference description says. */
  lemma ExchangeIsExpected(actions: seq<Action>)
    ensures Exchange(actions).sent == Expected(actions)
  {
    if actions != [] {
      match actions[0]
      case Panic =>
      case Write(bytes) =>
        OpenResponse(Act(FRESH, actions[0]).0, actions[1..]);
        assert [Header(200)] + Bodies(actions) == [Header(200), Body(bytes)] + Bodies(actions[1..]);
      case WriteHeader(code) =>
        if ValidCode(code) { OpenResponse(Act(FRESH, actions[0]).0, actions[1..]); }
    }
  }

  /** The status that is logged is the opening one. */
  lemma {:induction false} LogIsExpected(actions: seq<Action>)
    ensures Logged(Exchange(actions)) == ExpectedLog(actions)
  {
    if actions != [] && !actions[0].Panic? {
      var c := Act(FRESH, actions[0]).0;
      if c.statusCode != 0 {
        OpenResponse(c, actions[1..]);
      }
    }
  }

  lemma {:induction false} BodiesAreBodies(actions: seq<Action>)
    ensures forall i :: 0 <= i < |Bodies(actions)| ==> Bodies(actions)[i].Body?
  {
    if actions != [] && !actions[0].Panic? {
      BodiesAreBodies(actions[1..]);
    }
  }

  /** At most one header is sent, and nothing is sent before it. */
  lemma HeaderOnceAndFirst(actions: seq<Action>)
    ensures forall i :: 0 <= i < |Exchange(actions).sent| ==> (Exchange(actions).sent[i].Header? <==> i == 0)
  {
    ExchangeIsExpected(actions);
    BodiesAreBodies(actions);
    if actions != [] { BodiesAreBodies(actions[1..]); }
  }

  /** A handler's opening the logger reports truthfully. */
  predicate HonestOpening(actions: seq<Action>) {
    actions != [] && actions[0].WriteHeader? ==>
      actions[0].code == 0 || actions[0].code == 101 || 200 <= actions[0].code <= 999
  }

  /** The logged status is the status sent exactly when the first action is not a header with an
      informational or out-of-range code (other than zero). */
  lemma LoggedIsSentIff(actions: seq<Action>)
    ensures Logged(Exchange(actions)) == StatusSent(Exchange(actions).sent) <==> HonestOpening(actions)
  {
    ExchangeIsExpected(actions);
    if actions != [] && !actions[0].Panic? {
      var c := Act(FRESH, actions[0]).0;
      BodiesAreBodies(actions[1..]);
      if c.statusCode != 0 { OpenResponse(c, actions[1..]); }
      if actions[0].WriteHeader? && ValidCode(actions[0].code) {
        assert Expected(actions)[1..] == Bodies(actions[1..]);
      }
    }
  }

  /** A panic after some output changes nothing: it is as if the handler had returned there. */
  lemma LatePanicIsSilent(before: seq<Action>, rest: seq<Action>)
    requires before != [] && Panic !in before
    ensures Exchange(before + [Panic] + rest) == Exchange(before)
  {
    var actions := before + [Panic] + rest;
    HandleConcat(FRESH, before, [Panic] + rest);
    assert actions == before + ([Panic] + rest);
    OutputSetsWroteHeader(FRESH, before);
  }

  lemma {:induction false} HandleConcat(c: Chain, before: seq<Action>, rest: seq<Action>)
    ensures Handle(c, before + rest) ==
            if Handle(c, before).1 then Handle(c, before) else Handle(Handle(c, before).0, rest)
    decreases |before|
  {
    if before == [] {
      assert before + rest == rest;
    } else {
      assert (before + rest)[1..] == before[1..] + rest;
      if !Act(c, before[0]).1 { HandleConcat(Act(c, before[0]).0, before[1..], rest); }
    }
  }

  lemma {:induction false} OutputSetsWroteHeader(c: Chain, actions: seq<Action>)
    requires (c.wroteHeader || actions != []) && Panic !in actions
    ensures Handle(c, actions).0.wroteHeader
    decreases |actions|
  {
    if actions != [] && !Act(c, actions[0]).1 {
      OutputSetsWroteHeader(Act(c, actions[0]).0, actions[1..]);
    }
  }
}
