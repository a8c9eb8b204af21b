/** The rendezvous of INodeBusService::getNodeList with the reply that some dispatcher writes into its buffer.

    A caller opens a pipe and a buffer, names both in a LIST request, and waits for the pipe's exit token.
    The service echoes both in its reply; the dispatcher that gets the reply writes the text into the buffer
    and only then writes the exit token. Messages may be lost, and descriptors and buffers are used again. */
module Rendezvous {
  import opened Bytes
  import opened Xml
  import NodeTable

  /** A getNodeList that is waiting; serial tells it from other calls with the same descriptor. */
  datatype Call = Call(serial: nat, buffer: string, receiver: string)

  /** A message that names the pipe `fd` and the buffer; text is what the reply brings. */
  datatype Message = Message(fd: int, call: Call, text: seq<byte>)

  datatype State = State(
    calls: map<int, Call>,               // open calls by descriptor
    memory: map<string, seq<byte>>,      // the buffers
    requests: set<Message>,              // on the way to the service
    replies: set<Message>,               // on the way to a dispatcher
    written: set<Message>,               // buffer written, exit token not yet
    exits: set<int>,                     // pipes that hold an exit token
    serials: nat,
    served: map<nat, seq<NodeTable.Node>>,         // history: the registry as the service saw it for a call
    returned: map<nat, Message>)         // history: each finished call with its result

  datatype Step =
    | Open(fd: int, buffer: string, receiver: string)
    | Lose(m: Message)
    | Serve(m: Message, nodes: seq<NodeTable.Node>)
    | WriteBuffer(m: Message)
    | WriteExit(m: Message)
    | ReturnFrom(fd: int)

  /** The text of the reply as the dispatcher prints it, for a registry with these nodes. */
  function ListText(codec: Codec, fd: int, call: Call, nodes: seq<NodeTable.Node>): (t: seq<byte>) {
    codec.render(Bus(NBUS_TYPE_RESPONSE, NBUS_CMD_LIST, call.receiver, fd, call.buffer, NodeTable.Names(nodes)))
  }

  function Initial(): (s: State) {
    State(map[], map[], {}, {}, {}, {}, 0, map[], map[])
  }

  predicate Enabled(s: State, t: Step) {
    match t
    case Open(fd, buffer, _) => fd > 0 && fd !in s.calls && forall f | f in s.calls :: s.calls[f].buffer != buffer
    case Lose(m) => m in s.requests || m in s.replies
    case Serve(m, nodes) => m in s.requests && nodes != []
    case WriteBuffer(m) => m in s.replies
    case WriteExit(m) => m in s.written
    case ReturnFrom(fd) => fd in s.calls && fd in s.exits && s.calls[fd].buffer in s.memory
  }

  function Do(codec: Codec, s: State, t: Step): (r: State)
    requires Enabled(s, t)
  {
    match t
    case Open(fd, buffer, receiver) =>
      var call := Call(s.serials, buffer, receiver);
      s.(calls := s.calls[fd := call], memory := s.memory[buffer := []],
         requests := s.requests + {Message(fd, call, [])}, serials := s.serials + 1)
    case Lose(m) => s.(requests := s.requests - {m}, replies := s.replies - {m})
    case Serve(m, nodes) =>
      s.(requests := s.requests - {m}, served := s.served[m.call.serial := nodes],
         replies := s.replies + {m.(text := ListText(codec, m.fd, m.call, nodes))})
    case WriteBuffer(m) =>
      s.(replies := s.replies - {m}, memory := s.memory[m.call.buffer := m.text], written := s.written + {m})
    case WriteExit(m) => s.(written := s.written - {m}, exits := s.exits + {m.fd})
    case ReturnFrom(fd) =>
      s.(calls := s.calls - {fd}, exits := s.exits - {fd},
         returned := s.returned[s.calls[fd].serial := Message(fd, s.calls[fd], s.memory[s.calls[fd].buffer])])
  }

  ghost predicate IsRun(codec: Codec, from: State, steps: seq<Step>)
    decreases |steps|
  {
    steps == [] || (Enabled(from, steps[0]) && IsRun(codec, Do(codec, from, steps[0]), steps[1..]))
  }

  function After(codec: Codec, from: State, steps: seq<Step>): (s: State)
    requires IsRun(codec, from, steps)
    decreases |steps|
  {
    if steps == [] then from else After(codec, Do(codec, from, steps[0]), steps[1..])
  }

  // ----- the invariant -----

  /** A message belongs to the call that is open on its descriptor. */
  predicate Belongs(s: State, m: Message) {
    m.fd in s.calls && s.calls[m.fd] == m.call
  }

  function UnderWay(s: State): (all: set<Message>) {
    s.requests + s.replies + s.written
  }

  /** At most one message or exit token is under way for each open call, and none for a closed one. */
  ghost predicate OnePerCall(s: State) {
    && s.requests !! s.replies && s.requests !! s.written && s.replies !! s.written
    && var all := UnderWay(s);
      && (forall m :: m in all ==> Belongs(s, m) && m.fd !in s.exits)
      && (forall m, n :: m in all && n in all && m.fd == n.fd ==> m == n)
      && (forall fd :: fd in s.exits ==> fd in s.calls)
  }

  /** Open calls have numbers of their own and buffers of their own. */
  ghost predicate CallsApart(s: State) {
    && (forall fd :: fd in s.calls ==> s.calls[fd].serial < s.serials && s.calls[fd].buffer in s.memory)
    && (forall f, g :: f in s.calls && g in s.calls && f != g ==>
          s.calls[f].serial != s.calls[g].serial && s.calls[f].buffer != s.calls[g].buffer)
    && (forall n :: n in s.returned ==> n < s.serials && forall fd :: fd in s.calls ==> s.calls[fd].serial != n)
    && (forall n :: n in s.served ==> n < s.serials)
  }

  /** The text is the one for the registry that the service saw for this call. */
  predicate Answers(codec: Codec, s: State, fd: int, call: Call, text: seq<byte>) {
    call.serial in s.served && text == ListText(codec, fd, call, s.served[call.serial])
  }

  ghost predicate TextsMatch(codec: Codec, s: State) {
    && (forall m :: m in s.replies ==> Answers(codec, s, m.fd, m.call, m.text))
    && (forall m :: m in s.written ==>
          Answers(codec, s, m.fd, m.call, m.text) && m.call.buffer in s.memory && s.memory[m.call.buffer] == m.text)
    && (forall fd :: fd in s.exits && fd in s.calls ==>
          s.calls[fd].buffer in s.memory && Answers(codec, s, fd, s.calls[fd], s.memory[s.calls[fd].buffer]))
    && (forall n :: n in s.returned ==> Matched(codec, s, n))
  }

  /** A finished call has returned the text for the registry that the service saw for this very call. */
  predicate Matched(codec: Codec, s: State, n: nat) {
    n in s.returned && s.returned[n].call.serial == n
    && Answers(codec, s, s.returned[n].fd, s.returned[n].call, s.returned[n].text)
  }

  ghost predicate Inv(codec: Codec, s: State) {
    OnePerCall(s) && CallsApart(s) && TextsMatch(codec, s)
  }

  lemma StepKeepsOnePerCall(codec: Codec, s: State, t: Step)
    requires Inv(codec, s) && Enabled(s, t)
    ensures OnePerCall(Do(codec, s, t))
  {
    var r := Do(codec, s, t);
    match t
    case Open(fd, buffer, receiver) => assert UnderWay(r) == UnderWay(s) + {Message(fd, r.calls[fd], [])};
    case Lose(m) => assert UnderWay(r) <= UnderWay(s);
    case Serve(m, nodes) =>
      assert Belongs(s, m);
      assert UnderWay(r) == UnderWay(s) - {m} + {m.(text := ListText(codec, m.fd, m.call, nodes))};
    case WriteBuffer(m) => assert UnderWay(r) == UnderWay(s);
    case WriteExit(m) =>
      assert Belongs(s, m);
      assert UnderWay(r) == UnderWay(s) - {m};
    case ReturnFrom(fd) => assert UnderWay(r) == UnderWay(s);
  }

  lemma StepKeepsCallsApart(codec: Codec, s: State, t: Step)
    requires Inv(codec, s) && Enabled(s, t)
    ensures CallsApart(Do(codec, s, t))
  {
    match t
    case Serve(m, nodes) => assert Belongs(s, m);
    case _ =>
  }

  lemma StepKeepsTexts(codec: Codec, s: State, t: Step)
    requires Inv(codec, s) && Enabled(s, t)
    ensures TextsMatch(codec, Do(codec, s, t))
  {
    var r := Do(codec, s, t);
    match t
    case Serve(m, nodes) =>
      assert Belongs(s, m);
      forall n | n in s.replies + s.written
        ensures n.call.serial != m.call.serial
      {
        assert Belongs(s, n) && n.fd != m.fd;
      }
    case WriteBuffer(m) =>
      assert Belongs(s, m);
      forall n | n in s.written
        ensures n.call.buffer != m.call.buffer
      {
        assert Belongs(s, n) && n.fd != m.fd;
      }
    case WriteExit(m) => assert Belongs(s, m);
    case ReturnFrom(fd) =>
      assert Matched(codec, r, s.calls[fd].serial);
    case _ =>
    forall n | n in r.returned
      ensures Matched(codec, r, n)
    {
      if n in s.returned {
        assert Matched(codec, s, n);
      }
    }
  }

  lemma {:induction false} RunKeepsInv(codec: Codec, from: State, steps: seq<Step>)
    requires Inv(codec, from) && IsRun(codec, from, steps)
    ensures Inv(codec, After(codec, from, steps))
    decreases |steps|
  {
    if steps != [] {
      StepKeepsOnePerCall(codec, from, steps[0]);
      StepKeepsCallsApart(codec, from, steps[0]);
      StepKeepsTexts(codec, from, steps[0]);
      RunKeepsInv(codec, Do(codec, from, steps[0]), steps[1..]);
    }
  }

  /** In every run getNodeList returns only with the text that answers its own request, written before it returned. */
  lemma ReturnsTheMatchingReply(codec: Codec, steps: seq<Step>, n: nat)
    requires IsRun(codec, Initial(), steps)
    requires n in After(codec, Initial(), steps).returned
    ensures var s := After(codec, Initial(), steps); var result := s.returned[n];
      && result.call.serial == n && n in s.served
      && result.text == ListText(codec, result.fd, result.call, s.served[n])
  {
    RunKeepsInv(codec, Initial(), steps);
    assert Matched(codec, After(codec, Initial(), steps), n);
  }

  /** No reply comes too late: whatever a dispatcher still has to write, the buffer and the pipe belong to
      the call that asked for it, which is still waiting. */
  lemma RepliesFindTheirCall(codec: Codec, steps: seq<Step>, m: Message)
    requires IsRun(codec, Initial(), steps)
    requires var s := After(codec, Initial(), steps); Enabled(s, WriteBuffer(m)) || Enabled(s, WriteExit(m))
    ensures var s := After(codec, Initial(), steps);
      && m.fd in s.calls && s.calls[m.fd] == m.call && m.fd !in s.exits && m.call.serial !in s.returned
  {
    RunKeepsInv(codec, Initial(), steps);
    assert Belongs(After(codec, Initial(), steps), m);
  }
}
