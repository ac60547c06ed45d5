/**
  The quiz server as a state machine. Each step is one callback of the network thread
  (a connection accepted, a chunk of bytes read) or one locked operation of the main loop
  on the event queue; the theorems are about every run.
 */
module ChatServer {
  import opened Common
  import opened Framing
  import opened FrameStream

  datatype Message =
    | Chat(from: string, text: string)
    | Answer(player: string, answer: string)
    | JoinRequest(name: string)
    | JoinAck
    | JoinNack(error: string)
    | ErrorMessage(error: string)
    | NoData

  datatype GameEvent = GameEvent(name: string, msg: Message)

  /**
    A connection in the chat room. The last three fields are history: the contents of the
    frames parsed from it, all bytes received on it, and how many events the game had when
    it was accepted.
   */
  datatype Participant = Participant(
    name: string, acc: seq<Byte>, sent: seq<Message>,
    frames: seq<seq<Byte>>, received: seq<Byte>, since: nat)

  /** The room and all events pushed for the game so far. */
  datatype Net = Net(room: seq<Participant>, pushed: seq<GameEvent>)

  // ----- The handlers -----

  predicate NameTaken(room: seq<Participant>, name: string) {
    exists k :: 0 <= k < |room| && room[k].name == name
  }

  function Send(p: Participant, msg: Message): Participant {
    p.(sent := p.sent + [msg])
  }

  const EMPTY_NAME := JoinNack("Name cannot be empty.")
  const NAME_EXISTS := JoinNack("Name already exists.")

  /** JoinHandlerBase::handle: the emitter afterwards. */
  function Join(room: seq<Participant>, p: Participant, msg: Message): Participant {
    if !msg.JoinRequest? then p
    else if msg.name == "" then Send(p, EMPTY_NAME)
    else if NameTaken(room, msg.name) then Send(p, NAME_EXISTS)
    else Send(p.(name := msg.name), JoinAck)
  }

  /** ChatRoomBase::handle: everyone but the emitter is sent a chat message. */
  function Relay(room: seq<Participant>, i: nat, msg: Message): (r: seq<Participant>)
    requires i < |room|
    ensures |r| == |room|
    ensures forall k :: 0 <= k < |room| ==> r[k] == if k != i && msg.Chat? then Send(room[k], msg) else room[k]
  {
    seq(|room|, k requires 0 <= k < |room| => if k != i && msg.Chat? then Send(room[k], msg) else room[k])
  }

  /** The dispatch in handle_receive. */
  function Dispatch(n: Net, i: nat, msg: Message): Net
    requires i < |n.room|
  {
    var p := n.room[i];
    if p.name == "" then
      var q := Join(n.room, p, msg);
      Net(n.room[i := q], if q.name == "" then n.pushed else n.pushed + [GameEvent(q.name, msg)])
    else Net(Relay(n.room, i, msg), n.pushed + [GameEvent(p.name, msg)])
  }

  /** A chunk read on the i-th connection: append, parse once, dispatch. */
  function Read(codec: Codec<Message>, n: Net, i: nat, chunk: seq<Byte>): Net
    requires i < |n.room|
  {
    var p := n.room[i];
    var s := ScanOnce(codec.size, p.acc + chunk);
    var q := p.(acc := s.rest, received := p.received + chunk);
    if s.frame.None? then n.(room := n.room[i := q])
    else
      var r := q.(frames := q.frames + [s.frame.value]);
      Dispatch(n.(room := n.room[i := r]), i, codec.decode(codec.blank, s.frame.value))
  }

  function Accept(n: Net): Net {
    n.(room := n.room + [Participant("", [], [], [], [], |n.pushed|)])
  }

  // ----- What a read does, seen from outside -----

  /** The message that a read on the i-th connection yields, if it yields one. */
  function Yielded(codec: Codec<Message>, n: Net, i: nat, chunk: seq<Byte>): Option<Message>
    requires i < |n.room|
  {
    var frame := ScanOnce(codec.size, n.room[i].acc + chunk).frame;
    if frame.None? then None else Some(codec.decode(codec.blank, frame.value))
  }

  /** Exactly what becomes of a message from a connection without a name. */
  lemma JoinOutcome(codec: Codec<Message>, n: Net, i: nat, chunk: seq<Byte>, msg: Message)
    requires i < |n.room| && n.room[i].name == "" && Yielded(codec, n, i, chunk) == Some(msg)
    ensures var after := Read(codec, n, i, chunk);
      var p, q := n.room[i], after.room[i];
      && |after.room| == |n.room| && (forall k :: 0 <= k < |n.room| && k != i ==> after.room[k] == n.room[k])
      && (q.name != "" <==> msg.JoinRequest? && msg.name != "" && forall k :: 0 <= k < |n.room| ==> n.room[k].name != msg.name)
      && (q.name != "" ==>
            q.name == msg.name && q.sent == p.sent + [JoinAck] && after.pushed == n.pushed + [GameEvent(msg.name, msg)])
      && (q.name == "" ==> after.pushed == n.pushed)
      && (q.sent == p.sent + [JoinNack("Name cannot be empty.")] <==> msg.JoinRequest? && msg.name == "")
      && ((q.sent == p.sent + [JoinNack("Name already exists.")])
          <==> (msg.JoinRequest? && msg.name != "" && exists k :: 0 <= k < |n.room| && n.room[k].name == msg.name))
      && (!msg.JoinRequest? ==> q.sent == p.sent)
  {
    hide ScanOnce;
    var p := n.room[i];
    var s := ScanOnce(codec.size, p.acc + chunk);
    var r := p.(acc := s.rest, received := p.received + chunk, frames := p.frames + [s.frame.value]);
    var room := n.room[i := r];
    assert Read(codec, n, i, chunk) == Dispatch(Net(room, n.pushed), i, msg);
    assert forall k :: 0 <= k < |room| ==> room[k].name == n.room[k].name;
    SentDiffer(p.sent);
  }

  lemma SentDiffer(sent: seq<Message>)
    ensures sent + [JoinNack("Name cannot be empty.")] != sent + [JoinNack("Name already exists.")]
    ensures forall text :: sent + [JoinNack(text)] != sent + [JoinAck] && sent + [JoinNack(text)] != sent
  {
    assert "Name cannot be empty."[5] != "Name already exists."[5];
    assert (sent + [JoinNack("Name cannot be empty.")])[|sent|] != (sent + [JoinNack("Name already exists.")])[|sent|];
    forall text
      ensures sent + [JoinNack(text)] != sent + [JoinAck] && sent + [JoinNack(text)] != sent
    {
      assert (sent + [JoinNack(text)])[|sent|] != (sent + [JoinAck])[|sent|];
    }
  }

  /** Exactly what becomes of a message from a named connection. */
  lemma MemberOutcome(codec: Codec<Message>, n: Net, i: nat, chunk: seq<Byte>, msg: Message)
    requires i < |n.room| && n.room[i].name != "" && Yielded(codec, n, i, chunk) == Some(msg)
    ensures var after := Read(codec, n, i, chunk);
      && |after.room| == |n.room|
      && after.pushed == n.pushed + [GameEvent(n.room[i].name, msg)]
      && (forall k :: 0 <= k < |n.room| ==> after.room[k].name == n.room[k].name)
      && (forall k :: 0 <= k < |n.room| ==>
            after.room[k].sent == n.room[k].sent + if msg.Chat? && k != i then [msg] else [])
  {
    hide ScanOnce;
  }

  /** The accumulator and the frames change as by one receive, and without a frame nothing else does. */
  lemma ReadIsReceive(codec: Codec<Message>, n: Net, i: nat, chunk: seq<Byte>)
    requires i < |n.room|
    ensures var after := Read(codec, n, i, chunk);
      var p, q := n.room[i], after.room[i];
      && |after.room| == |n.room|
      && Stream(q.frames, q.acc) == Receive(codec.size, Stream(p.frames, p.acc), chunk)
      && q.received == p.received + chunk
      && (forall k :: 0 <= k < |n.room| && k != i ==>
            after.room[k] == n.room[k].(sent := after.room[k].sent))
      && (Yielded(codec, n, i, chunk).None? ==>
            after.pushed == n.pushed && after.room == n.room[i := p.(acc := q.acc, received := q.received)])
  {
    hide ScanOnce;
  }

  // ----- What is claimed of every reachable state -----

  /** The messages that a connection's frames carry. */
  function Heard(codec: Codec<Message>, frames: seq<seq<Byte>>): (msgs: seq<Message>)
    ensures |msgs| == |frames|
    ensures forall k :: 0 <= k < |msgs| ==> msgs[k] == codec.decode(codec.blank, frames[k])
  {
    seq(|frames|, k requires 0 <= k < |frames| => codec.decode(codec.blank, frames[k]))
  }

  /** The messages of the events that carry a name, in order. */
  function MessagesOf(events: seq<GameEvent>, name: string): seq<Message> {
    if events == [] then []
    else
      var before, e := MessagesOf(events[..|events| - 1], name), events[|events| - 1];
      if e.name == name then before + [e.msg] else before
  }

  /** The chat messages among the events that carry another name, in order. */
  function ChatsOfOthers(events: seq<GameEvent>, name: string): seq<Message> {
    if events == [] then []
    else
      var before, e := ChatsOfOthers(events[..|events| - 1], name), events[|events| - 1];
      if e.name != name && e.msg.Chat? then before + [e.msg] else before
  }

  /** The chat messages, or the others, among those sent to a connection. */
  function Sent(msgs: seq<Message>, chat: bool): seq<Message> {
    if msgs == [] then []
    else
      var before, m := Sent(msgs[..|msgs| - 1], chat), msgs[|msgs| - 1];
      if m.Chat? == chat then before + [m] else before
  }

  predicate AllNacks(msgs: seq<Message>) {
    forall k :: 0 <= k < |msgs| ==> msgs[k].JoinNack?
  }

  /** Only refusals before the name is set; then one acknowledgement, and nothing but chat after it. */
  predicate Answered(p: Participant) {
    var replies := Sent(p.sent, false);
    if p.name == "" then AllNacks(replies)
    else replies != [] && replies[|replies| - 1] == JoinAck && AllNacks(replies[..|replies| - 1])
  }

  /** It has been sent exactly what the others said since it came. */
  predicate Informed(events: seq<GameEvent>, p: Participant) {
    p.since <= |events| && Sent(p.sent, true) == ChatsOfOthers(events[p.since..], p.name)
  }

  /** The game was told all of its messages from the accepted join request on. */
  ghost predicate Reported(codec: Codec<Message>, events: seq<GameEvent>, p: Participant) {
    p.name != "" ==> exists k: nat :: JoinedAt(codec, events, p, k)
  }

  predicate JoinedAt(codec: Codec<Message>, events: seq<GameEvent>, p: Participant, k: nat) {
    var heard := Heard(codec, p.frames);
    k < |heard| && heard[k] == JoinRequest(p.name) && MessagesOf(events, p.name) == heard[k..]
  }

  ghost predicate Sound(codec: Codec<Message>, events: seq<GameEvent>, p: Participant) {
    && Accounts(codec.size, Stream(p.frames, p.acc), p.received)
    && Answered(p)
    && Informed(events, p)
    && Reported(codec, events, p)
  }

  predicate DistinctNames(room: seq<Participant>) {
    forall i, j :: 0 <= i < j < |room| && room[i].name == room[j].name ==> room[i].name == ""
  }

  /** Every event carries the non-empty name of a participant. */
  predicate FromParticipants(n: Net) {
    forall k :: 0 <= k < |n.pushed| ==> n.pushed[k].name != "" && NameTaken(n.room, n.pushed[k].name)
  }

  ghost predicate Inv(codec: Codec<Message>, n: Net) {
    && DistinctNames(n.room)
    && FromParticipants(n)
    && forall i :: 0 <= i < |n.room| ==> Sound(codec, n.pushed, n.room[i])
  }

  // ----- Each step keeps it -----

  lemma {:induction false} NobodysEvents(events: seq<GameEvent>, name: string)
    requires forall k :: 0 <= k < |events| ==> events[k].name != name
    ensures MessagesOf(events, name) == []
  {
    if events != [] {
      NobodysEvents(events[..|events| - 1], name);
    }
  }

  /** Chat messages look the same to two readers neither of whom is an author. */
  lemma {:induction false} SameToStrangers(events: seq<GameEvent>, a: string, b: string)
    requires forall k :: 0 <= k < |events| ==> events[k].name != a && events[k].name != b
    ensures ChatsOfOthers(events, a) == ChatsOfOthers(events, b)
  {
    if events != [] {
      SameToStrangers(events[..|events| - 1], a, b);
    }
  }

  lemma SentOneMore(msgs: seq<Message>, m: Message, chat: bool)
    ensures Sent(msgs + [m], chat) == if m.Chat? == chat then Sent(msgs, chat) + [m] else Sent(msgs, chat)
  {
    assert (msgs + [m])[..|msgs|] == msgs;
  }

  lemma EventsOneMore(events: seq<GameEvent>, e: GameEvent, name: string)
    ensures MessagesOf(events + [e], name) == MessagesOf(events, name) + if e.name == name then [e.msg] else []
    ensures ChatsOfOthers(events + [e], name)
         == ChatsOfOthers(events, name) + if e.name != name && e.msg.Chat? then [e.msg] else []
  {
    assert (events + [e])[..|events|] == events;
  }

  lemma HeardOneMore(codec: Codec<Message>, frames: seq<seq<Byte>>, f: seq<Byte>)
    ensures Heard(codec, frames + [f]) == Heard(codec, frames) + [codec.decode(codec.blank, f)]
  {
  }

  /** A bystander after an event of someone else, relayed to it if it is a chat message. */
  lemma BystanderStaysSound(codec: Codec<Message>, events: seq<GameEvent>, p: Participant, e: GameEvent)
    requires Sound(codec, events, p) && e.name != p.name
    ensures Sound(codec, events + [e], if e.msg.Chat? then Send(p, e.msg) else p)
  {
    hide Accounts, Sent, MessagesOf, ChatsOfOthers;
    var q := if e.msg.Chat? then Send(p, e.msg) else p;
    var more := events + [e];
    SentOneMore(p.sent, e.msg, true);
    SentOneMore(p.sent, e.msg, false);
    assert more[p.since..] == events[p.since..] + [e];
    EventsOneMore(events[p.since..], e, p.name);
    EventsOneMore(events, e, p.name);
    if p.name != "" {
      var k: nat :| JoinedAt(codec, events, p, k);
      assert JoinedAt(codec, more, q, k);
    }
  }

  /** `p` before, and `q` after, a read that yielded the frame `f`; nothing dispatched yet. */
  ghost predicate Parsed(codec: Codec<Message>, p: Participant, q: Participant, f: seq<Byte>) {
    && q == p.(acc := q.acc, received := q.received, frames := p.frames + [f])
    && Accounts(codec.size, Stream(q.frames, q.acc), q.received)
  }

  /** A named emitter after its event. */
  lemma EmitterStaysSound(codec: Codec<Message>, events: seq<GameEvent>, p: Participant, q: Participant, f: seq<Byte>)
    requires Sound(codec, events, p) && p.name != "" && Parsed(codec, p, q, f)
    ensures Sound(codec, events + [GameEvent(p.name, codec.decode(codec.blank, f))], q)
  {
    hide Accounts;
    var e := GameEvent(p.name, codec.decode(codec.blank, f));
    var more := events + [e];
    assert more[p.since..] == events[p.since..] + [e];
    EventsOneMore(events[p.since..], e, p.name);
    EventsOneMore(events, e, p.name);
    HeardOneMore(codec, p.frames, f);
    var k: nat :| JoinedAt(codec, events, p, k);
    var heard := Heard(codec, p.frames);
    assert (heard + [e.msg])[k..] == heard[k..] + [e.msg];
    assert JoinedAt(codec, more, q, k);
  }

  /** An unnamed emitter whose message does not make it join. */
  lemma OutsiderStaysSound(codec: Codec<Message>, n: Net, p: Participant, q: Participant, f: seq<Byte>)
    requires Sound(codec, n.pushed, p) && p.name == "" && Parsed(codec, p, q, f)
    requires var r := Join(n.room, q, codec.decode(codec.blank, f)); r.name == ""
    ensures Sound(codec, n.pushed, Join(n.room, q, codec.decode(codec.blank, f)))
  {
    hide Accounts, Sent;
    SentOneMore(p.sent, EMPTY_NAME, true);
    SentOneMore(p.sent, EMPTY_NAME, false);
    SentOneMore(p.sent, NAME_EXISTS, true);
    SentOneMore(p.sent, NAME_EXISTS, false);
  }

  /** An emitter whose join request is accepted. */
  lemma JoinerIsSound(codec: Codec<Message>, n: Net, p: Participant, q: Participant, f: seq<Byte>)
    requires FromParticipants(n)
    requires Sound(codec, n.pushed, p) && p.name == "" && Parsed(codec, p, q, f)
    requires var msg := codec.decode(codec.blank, f);
      msg.JoinRequest? && msg.name != "" && !NameTaken(n.room, msg.name)
    ensures var msg := codec.decode(codec.blank, f);
      Sound(codec, n.pushed + [GameEvent(msg.name, msg)], Send(q.(name := msg.name), JoinAck))
  {
    hide Accounts, Sent, MessagesOf, ChatsOfOthers;
    var msg := codec.decode(codec.blank, f);
    var e, r := GameEvent(msg.name, msg), Send(q.(name := msg.name), JoinAck);
    var more := n.pushed + [e];
    SentOneMore(p.sent, JoinAck, true);
    SentOneMore(p.sent, JoinAck, false);
    assert more[p.since..] == n.pushed[p.since..] + [e];
    SameToStrangers(n.pushed[p.since..], "", msg.name);
    EventsOneMore(n.pushed[p.since..], e, msg.name);
    EventsOneMore(n.pushed, e, msg.name);
    NobodysEvents(n.pushed, msg.name);
    HeardOneMore(codec, p.frames, f);
    var k := |p.frames|;
    assert Heard(codec, r.frames)[k..] == [msg];
    assert JoinedAt(codec, more, r, k);
  }

  lemma ParsedByRead(codec: Codec<Message>, p: Participant, chunk: seq<Byte>)
    requires Accounts(codec.size, Stream(p.frames, p.acc), p.received)
    ensures var s := ScanOnce(codec.size, p.acc + chunk);
      var frames := if s.frame.Some? then p.frames + [s.frame.value] else p.frames;
      Accounts(codec.size, Stream(frames, s.rest), p.received + chunk)
  {
    ReceiveAccounts(codec.size, Stream(p.frames, p.acc), p.received, chunk);
  }

  lemma NamesKept(room: seq<Participant>, more: seq<Participant>, name: string)
    requires |room| <= |more| && name != "" && NameTaken(room, name)
    requires forall k :: 0 <= k < |room| && room[k].name != "" ==> more[k].name == room[k].name
    ensures NameTaken(more, name)
  {
    var k :| 0 <= k < |room| && room[k].name == name;
    assert more[k].name == name;
  }

  lemma AcceptKeepsInv(codec: Codec<Message>, n: Net)
    requires Inv(codec, n)
    ensures Inv(codec, Accept(n))
  {
    hide Sound;
    var more := Accept(n);
    forall k | 0 <= k < |n.pushed|
      ensures NameTaken(more.room, n.pushed[k].name)
    {
      NamesKept(n.room, more.room, n.pushed[k].name);
    }
    NewcomerIsSound(codec, n.pushed);
  }

  lemma NewcomerIsSound(codec: Codec<Message>, events: seq<GameEvent>)
    ensures Sound(codec, events, Participant("", [], [], [], [], |events|))
  {
    assert events[|events|..] == [];
    assert Drain(codec.size, []) == [] && Residue(codec.size, []) == [];
  }

  /** A message from an unnamed connection that stays unnamed. */
  lemma OutsiderKeepsInv(codec: Codec<Message>, n: Net, i: nat, q: Participant, f: seq<Byte>)
    requires Inv(codec, n) && i < |n.room| && n.room[i].name == "" && Parsed(codec, n.room[i], q, f)
    requires Join(n.room[i := q], q, codec.decode(codec.blank, f)).name == ""
    ensures Inv(codec, Dispatch(Net(n.room[i := q], n.pushed), i, codec.decode(codec.blank, f)))
  {
    hide Sound;
    var mid, msg := Net(n.room[i := q], n.pushed), codec.decode(codec.blank, f);
    OutsiderStaysSound(codec, mid, n.room[i], q, f);
    var after := Dispatch(mid, i, msg);
    forall k | 0 <= k < |n.pushed|
      ensures NameTaken(after.room, n.pushed[k].name)
    {
      NamesKept(n.room, after.room, n.pushed[k].name);
    }
  }

  /** A join request that is accepted. */
  lemma JoinKeepsInv(codec: Codec<Message>, n: Net, i: nat, q: Participant, f: seq<Byte>)
    requires Inv(codec, n) && i < |n.room| && n.room[i].name == "" && Parsed(codec, n.room[i], q, f)
    requires Join(n.room[i := q], q, codec.decode(codec.blank, f)).name != ""
    ensures Inv(codec, Dispatch(Net(n.room[i := q], n.pushed), i, codec.decode(codec.blank, f)))
  {
    hide Sound;
    var mid, msg := Net(n.room[i := q], n.pushed), codec.decode(codec.blank, f);
    var after := Dispatch(mid, i, msg);
    forall k | 0 <= k < |n.pushed|
      ensures NameTaken(mid.room, n.pushed[k].name) && NameTaken(after.room, n.pushed[k].name)
    {
      NamesKept(n.room, mid.room, n.pushed[k].name);
      NamesKept(n.room, after.room, n.pushed[k].name);
    }
    JoinerIsSound(codec, mid, n.room[i], q, f);
    assert after.room[i].name == msg.name;
    forall k | 0 <= k < |n.room| && k != i
      ensures Sound(codec, after.pushed, after.room[k]) && after.room[k].name != msg.name
    {
      assert mid.room[k].name == n.room[k].name;
      BystanderStaysSound(codec, n.pushed, n.room[k], GameEvent(msg.name, msg));
    }
  }

  /** A message from a named connection: relayed if it is chat, and reported to the game. */
  lemma MemberKeepsInv(codec: Codec<Message>, n: Net, i: nat, q: Participant, f: seq<Byte>)
    requires Inv(codec, n) && i < |n.room| && n.room[i].name != "" && Parsed(codec, n.room[i], q, f)
    ensures Inv(codec, Dispatch(Net(n.room[i := q], n.pushed), i, codec.decode(codec.blank, f)))
  {
    hide Sound;
    var mid, msg := Net(n.room[i := q], n.pushed), codec.decode(codec.blank, f);
    var after := Dispatch(mid, i, msg);
    EmitterStaysSound(codec, n.pushed, n.room[i], q, f);
    forall k | 0 <= k < |n.room| && k != i
      ensures Sound(codec, after.pushed, after.room[k])
    {
      BystanderStaysSound(codec, n.pushed, n.room[k], GameEvent(q.name, msg));
    }
    forall k | 0 <= k < |after.pushed|
      ensures after.pushed[k].name != "" && NameTaken(after.room, after.pushed[k].name)
    {
      if k < |n.pushed| {
        NamesKept(n.room, after.room, n.pushed[k].name);
      } else {
        assert after.room[i].name == after.pushed[k].name;
      }
    }
  }

  lemma ReadKeepsInv(codec: Codec<Message>, n: Net, i: nat, chunk: seq<Byte>)
    requires Inv(codec, n) && i < |n.room|
    ensures Inv(codec, Read(codec, n, i, chunk))
  {
    var p := n.room[i];
    var s := ScanOnce(codec.size, p.acc + chunk);
    assert Sound(codec, n.pushed, p);
    ParsedByRead(codec, p, chunk);
    var q := p.(acc := s.rest, received := p.received + chunk);
    if s.frame.None? {
      QuietReadKeepsInv(codec, n, i, q);
    } else {
      var f := s.frame.value;
      var r := q.(frames := q.frames + [f]);
      hide Inv, Sound, Accounts, Dispatch;
      assert Parsed(codec, p, r, f);
      if p.name != "" {
        MemberKeepsInv(codec, n, i, r, f);
      } else if Join(n.room[i := r], r, codec.decode(codec.blank, f)).name == "" {
        OutsiderKeepsInv(codec, n, i, r, f);
      } else {
        JoinKeepsInv(codec, n, i, r, f);
      }
    }
  }

  lemma QuietReadKeepsInv(codec: Codec<Message>, n: Net, i: nat, q: Participant)
    requires Inv(codec, n) && i < |n.room|
    requires q == n.room[i].(acc := q.acc, received := q.received)
    requires Accounts(codec.size, Stream(q.frames, q.acc), q.received)
    ensures Inv(codec, Net(n.room[i := q], n.pushed))
  {
    hide Sound, Accounts;
    var more := n.room[i := q];
    forall k | 0 <= k < |n.pushed|
      ensures NameTaken(more, n.pushed[k].name)
    {
      NamesKept(n.room, more, n.pushed[k].name);
    }
    QuietReaderStaysSound(codec, n.pushed, n.room[i], q);
  }

  lemma QuietReaderStaysSound(codec: Codec<Message>, events: seq<GameEvent>, p: Participant, q: Participant)
    requires Sound(codec, events, p) && q == p.(acc := q.acc, received := q.received)
    requires Accounts(codec.size, Stream(q.frames, q.acc), q.received)
    ensures Sound(codec, events, q)
  {
    hide Accounts;
    if q.name != "" {
      var k: nat :| JoinedAt(codec, events, p, k);
      assert JoinedAt(codec, events, q, k);
    }
  }

  // ----- Runs, with the main loop on the other side of the event queue -----

  /** `sawEvents`: the main loop has found the queue non-empty and will now empty it. */
  datatype World = World(net: Net, queue: seq<GameEvent>, consumed: seq<GameEvent>, sawEvents: bool)

  datatype Action = Accepting | Reading(i: nat, chunk: seq<Byte>) | CheckSize | TakeAll

  const START := World(Net([], []), [], [], false)

  /** One atomic step; a read can only happen on an accepted connection. */
  function Step(codec: Codec<Message>, w: World, a: Action): World {
    match a
    case Accepting => w.(net := Accept(w.net))
    case Reading(i, chunk) =>
      if i >= |w.net.room| then w
      else
        var net := Read(codec, w.net, i, chunk);
        w.(net := net, queue := w.queue + net.pushed[|w.net.pushed|..])
    case CheckSize => w.(sawEvents := w.queue != [])
    case TakeAll =>
      if w.sawEvents then w.(queue := [], consumed := w.consumed + w.queue, sawEvents := false) else w
  }

  function Exec(codec: Codec<Message>, w: World, actions: seq<Action>): World
    decreases |actions|
  {
    if actions == [] then w else Exec(codec, Step(codec, w, actions[0]), actions[1..])
  }

  ghost predicate WorldInv(codec: Codec<Message>, w: World) {
    && Inv(codec, w.net)
    && w.consumed + w.queue == w.net.pushed
    && (w.sawEvents ==> w.queue != [])
  }

  /** What was there stays: names once set, participants in their places, and all histories. */
  predicate Extends(w: World, later: World) {
    && |w.net.room| <= |later.net.room|
    && w.net.pushed <= later.net.pushed
    && w.consumed <= later.consumed
    && forall i :: 0 <= i < |w.net.room| ==>
         var p, q := w.net.room[i], later.net.room[i];
         (p.name != "" ==> q.name == p.name) && p.sent <= q.sent && p.received <= q.received && p.frames <= q.frames
  }

  lemma StepKeepsInv(codec: Codec<Message>, w: World, a: Action)
    requires WorldInv(codec, w)
    ensures WorldInv(codec, Step(codec, w, a))
    ensures Extends(w, Step(codec, w, a))
  {
    hide Inv;
    match a
    case Accepting =>
      AcceptKeepsInv(codec, w.net);
    case Reading(i, chunk) =>
      if i < |w.net.room| {
        ReadKeepsInv(codec, w.net, i, chunk);
        ReadExtends(codec, w.net, i, chunk);
        var net := Read(codec, w.net, i, chunk);
        assert net.pushed == w.net.pushed + net.pushed[|w.net.pushed|..];
        Associates(w.consumed, w.queue, net.pushed[|w.net.pushed|..]);
      }
    case CheckSize =>
    case TakeAll =>
  }

  lemma ReadExtends(codec: Codec<Message>, n: Net, i: nat, chunk: seq<Byte>)
    requires i < |n.room|
    ensures var more := Read(codec, n, i, chunk);
      && |more.room| == |n.room|
      && n.pushed <= more.pushed
      && forall k :: 0 <= k < |n.room| ==>
           var p, q := n.room[k], more.room[k];
           (p.name != "" ==> q.name == p.name) && p.sent <= q.sent && p.received <= q.received && p.frames <= q.frames
  {
    hide ScanOnce;
  }

  /** The invariant holds in every state of every run, and nothing is ever taken back. */
  lemma {:induction false} RunsKeepInv(codec: Codec<Message>, w: World, actions: seq<Action>)
    requires WorldInv(codec, w)
    ensures WorldInv(codec, Exec(codec, w, actions)) && Extends(w, Exec(codec, w, actions))
    decreases |actions|
  {
    if actions != [] {
      hide Step, WorldInv, Extends;
      var next := Step(codec, w, actions[0]);
      StepKeepsInv(codec, w, actions[0]);
      RunsKeepInv(codec, next, actions[1..]);
      ExtendsTransitive(w, next, Exec(codec, next, actions[1..]));
    } else {
      ExtendsReflexive(w);
    }
  }

  lemma ExtendsReflexive(w: World)
    ensures Extends(w, w)
  {
  }

  lemma ExtendsTransitive(a: World, b: World, c: World)
    requires Extends(a, b) && Extends(b, c)
    ensures Extends(a, c)
  {
    forall i | 0 <= i < |a.net.room|
      ensures var p, q := a.net.room[i], c.net.room[i];
        (p.name != "" ==> q.name == p.name) && p.sent <= q.sent && p.received <= q.received && p.frames <= q.frames
    {
      var m := b.net.room[i];
      assert a.net.room[i].sent <= m.sent <= c.net.room[i].sent;
    }
  }

  /** Every reachable state satisfies the invariant. */
  lemma EveryRun(codec: Codec<Message>, actions: seq<Action>)
    ensures WorldInv(codec, Exec(codec, START, actions))
  {
    RunsKeepInv(codec, START, actions);
  }

  lemma {:induction false} ExecOneMore(codec: Codec<Message>, w: World, actions: seq<Action>, a: Action)
    ensures Exec(codec, w, actions + [a]) == Step(codec, Exec(codec, w, actions), a)
    decreases |actions|
  {
    hide Step;
    if actions == [] {
      assert (actions + [a])[1..] == [];
    } else {
      assert (actions + [a])[1..] == actions[1..] + [a];
      ExecOneMore(codec, Step(codec, w, actions[0]), actions[1..], a);
    }
  }

  // ----- What follows for every run -----

  /** How many connections a run accepts. */
  function Accepted(actions: seq<Action>): nat {
    if actions == [] then 0
    else Accepted(actions[..|actions| - 1]) + if actions[|actions| - 1].Accepting? then 1 else 0
  }

  /** What the reads on the i-th connection bring, from its acceptance on. */
  function ChunksOf(actions: seq<Action>, i: nat): seq<seq<Byte>> {
    if actions == [] then []
    else
      var before, a := actions[..|actions| - 1], actions[|actions| - 1];
      if a.Reading? && a.i == i && i < Accepted(before) then ChunksOf(before, i) + [a.chunk] else ChunksOf(before, i)
  }

  /** A connection that has received the chunks, in any number of reads. */
  predicate HasReceived(codec: Codec<Message>, p: Participant, chunks: seq<seq<Byte>>) {
    Stream(p.frames, p.acc) == ReceiveAll(codec.size, chunks) && p.received == Flatten(chunks)
  }

  /**
    Each accepted connection is in the room, and its frames and its accumulator are those of
    its own reads, whatever happens on the others.
   */
  lemma {:induction false} RunStreams(codec: Codec<Message>, actions: seq<Action>, i: nat)
    ensures var room := Exec(codec, START, actions).net.room;
      && |room| == Accepted(actions)
      && (i < |room| ==> HasReceived(codec, room[i], ChunksOf(actions, i)))
      && (i >= |room| ==> ChunksOf(actions, i) == [])
    decreases |actions|
  {
    if actions != [] {
      hide Exec, HasReceived, Read, Accept;
      var before, a := actions[..|actions| - 1], actions[|actions| - 1];
      RunStreams(codec, before, i);
      ExecOneMore(codec, START, before, a);
      assert before + [a] == actions;
      var w := Exec(codec, START, before);
      match a
      case Accepting =>
        AcceptStreams(codec, w.net);
      case Reading(k, chunk) =>
        if k < |w.net.room| {
          ReadStreams(codec, w.net, k, chunk, i, ChunksOf(before, i));
        }
      case CheckSize =>
      case TakeAll =>
    }
  }

  lemma AcceptStreams(codec: Codec<Message>, n: Net)
    ensures var room := Accept(n).room;
      && |room| == |n.room| + 1
      && (forall k :: 0 <= k < |n.room| ==> room[k] == n.room[k])
      && HasReceived(codec, room[|n.room|], [])
  {
  }

  lemma ReadStreams(codec: Codec<Message>, n: Net, k: nat, chunk: seq<Byte>, i: nat, chunks: seq<seq<Byte>>)
    requires k < |n.room| && (i < |n.room| ==> HasReceived(codec, n.room[i], chunks))
    ensures var room := Read(codec, n, k, chunk).room;
      && |room| == |n.room|
      && (i < |room| ==> HasReceived(codec, room[i], if i == k then chunks + [chunk] else chunks))
  {
    ReadIsReceive(codec, n, k, chunk);
    hide Read, Receive;
    assert (chunks + [chunk])[..|chunks|] == chunks;
    FlattenAppend(chunks, [chunk]);
    assert Flatten([chunk]) == chunk + Flatten([]) == chunk;
  }

  /** One turn of the main loop takes everything that is queued. */
  lemma TurnTakesAll(codec: Codec<Message>, w: World)
    ensures var after := Exec(codec, w, [CheckSize, TakeAll]);
      after.net == w.net && after.queue == [] && after.consumed == w.consumed + w.queue
  {
    ExecOneMore(codec, w, [CheckSize], TakeAll);
    ExecOneMore(codec, w, [], CheckSize);
    assert [] + [CheckSize] == [CheckSize] && [CheckSize] + [TakeAll] == [CheckSize, TakeAll];
    assert w.consumed + [] == w.consumed;
  }

  /** No two connections ever have the same name, and a name once set is never changed. */
  lemma NamesSettled(codec: Codec<Message>, actions: seq<Action>, more: seq<Action>, i: nat, j: nat)
    requires i < |Exec(codec, START, actions).net.room|
    requires i < j < |Exec(codec, Exec(codec, START, actions), more).net.room|
    ensures var w := Exec(codec, START, actions);
      var p, q, r := w.net.room[i], Exec(codec, w, more).net.room[i], Exec(codec, w, more).net.room[j];
      && (p.name != "" ==> q.name == p.name)
      && (q.name == r.name ==> q.name == "")
  {
    EveryRun(codec, actions);
    RunsKeepInv(codec, Exec(codec, START, actions), more);
    hide Exec, Sound;
  }

  /** A connection has been sent exactly the chat messages that others brought to the game since it came. */
  lemma HeardTheOthers(codec: Codec<Message>, actions: seq<Action>, i: nat)
    requires i < |Exec(codec, START, actions).net.room|
    ensures var w := Exec(codec, START, actions);
      var p, events := w.net.room[i], w.consumed + w.queue;
      p.since <= |events| && Sent(p.sent, true) == ChatsOfOthers(events[p.since..], p.name)
  {
    EveryRun(codec, actions);
    hide Exec, Accounts, Sent, ChatsOfOthers;
    var w := Exec(codec, START, actions);
    assert Sound(codec, w.net.pushed, w.net.room[i]);
  }

  /** A named connection has been acknowledged exactly once, an unnamed one never. */
  lemma AcknowledgedOnce(codec: Codec<Message>, actions: seq<Action>, i: nat)
    requires i < |Exec(codec, START, actions).net.room|
    ensures var p := Exec(codec, START, actions).net.room[i];
      multiset(p.sent)[JoinAck] == if p.name == "" then 0 else 1
  {
    EveryRun(codec, actions);
    hide Exec, Accounts, Informed, Reported;
    var w := Exec(codec, START, actions);
    var p := w.net.room[i];
    assert Sound(codec, w.net.pushed, p);
    RepliesCount(p.sent);
    var replies := Sent(p.sent, false);
    if p.name != "" {
      var front := replies[..|replies| - 1];
      assert replies == front + [JoinAck];
      NacksHoldNoAck(front);
    } else {
      NacksHoldNoAck(replies);
    }
  }

  lemma {:induction false} RepliesCount(msgs: seq<Message>)
    ensures multiset(msgs)[JoinAck] == multiset(Sent(msgs, false))[JoinAck]
  {
    if msgs != [] {
      RepliesCount(msgs[..|msgs| - 1]);
      assert msgs == msgs[..|msgs| - 1] + [msgs[|msgs| - 1]];
    }
  }

  lemma NacksHoldNoAck(msgs: seq<Message>)
    requires AllNacks(msgs)
    ensures multiset(msgs)[JoinAck] == 0
  {
    assert forall m :: m in msgs ==> m.JoinNack?;
  }

  /** The first event of each player is its join request, under the name it asked for. */
  lemma FirstEventIsJoin(codec: Codec<Message>, actions: seq<Action>, k: nat)
    requires k < |Exec(codec, START, actions).net.pushed|
    requires var events := Exec(codec, START, actions).net.pushed;
      forall j :: 0 <= j < k ==> events[j].name != events[k].name
    ensures var e := Exec(codec, START, actions).net.pushed[k];
      e.name != "" && e.msg == JoinRequest(e.name)
  {
    EveryRun(codec, actions);
    hide Exec;
    var n := Exec(codec, START, actions).net;
    var name := n.pushed[k].name;
    assert NameTaken(n.room, name);
    var i :| 0 <= i < |n.room| && n.room[i].name == name;
    assert Sound(codec, n.pushed, n.room[i]);
    var j: nat :| JoinedAt(codec, n.pushed, n.room[i], j);
    FirstMessageOf(n.pushed, k);
  }

  lemma {:induction false} FirstMessageOf(events: seq<GameEvent>, k: nat)
    requires k < |events| && forall j :: 0 <= j < k ==> events[j].name != events[k].name
    ensures var msgs := MessagesOf(events, events[k].name); msgs != [] && msgs[0] == events[k].msg
  {
    var before := events[..|events| - 1];
    if k < |before| {
      FirstMessageOf(before, k);
    } else {
      NobodysEvents(before, events[k].name);
    }
  }

  /**
    From the bytes to the game: the events of a player, followed by the messages still in
    its buffer, are the messages of all bytes it sent, from its accepted join request on.
   */
  lemma BytesReachTheGame(codec: Codec<Message>, actions: seq<Action>, i: nat) returns (k: nat)
    requires i < |Exec(codec, START, actions).net.room|
    requires Exec(codec, START, actions).net.room[i].name != ""
    ensures var w := Exec(codec, START, actions);
      var p := w.net.room[i];
      var all := Heard(codec, Drain(codec.size, p.received));
      && k < |all| && all[k] == JoinRequest(p.name)
      && MessagesOf(w.consumed + w.queue, p.name) + Heard(codec, Drain(codec.size, p.acc)) == all[k..]
  {
    EveryRun(codec, actions);
    hide Exec, Inv;
    var w := Exec(codec, START, actions);
    assert Sound(codec, w.net.pushed, w.net.room[i]) by {
      assert Inv(codec, w.net);
      SoundMember(codec, w.net, i);
    }
    k := SuffixReported(codec, w.net.pushed, w.net.room[i]);
  }

  lemma SoundMember(codec: Codec<Message>, n: Net, i: nat)
    requires Inv(codec, n) && i < |n.room|
    ensures Sound(codec, n.pushed, n.room[i])
  {
    hide Sound;
  }

  lemma SuffixReported(codec: Codec<Message>, events: seq<GameEvent>, p: Participant) returns (k: nat)
    requires Sound(codec, events, p) && p.name != ""
    ensures var all := Heard(codec, Drain(codec.size, p.received));
      && k < |all| && all[k] == JoinRequest(p.name)
      && MessagesOf(events, p.name) + Heard(codec, Drain(codec.size, p.acc)) == all[k..]
  {
    hide Drain, Residue, MessagesOf;
    k :| JoinedAt(codec, events, p, k);
    HeardAppend(codec, p.frames, Drain(codec.size, p.acc));
    SuffixOfSum(Heard(codec, p.frames), Heard(codec, Drain(codec.size, p.acc)), k);
  }

  lemma SuffixOfSum(a: seq<Message>, b: seq<Message>, k: nat)
    requires k < |a|
    ensures (a + b)[k..] == a[k..] + b && (a + b)[k] == a[k]
  {
  }

  lemma HeardAppend(codec: Codec<Message>, a: seq<seq<Byte>>, b: seq<seq<Byte>>)
    ensures Heard(codec, a + b) == Heard(codec, a) + Heard(codec, b)
  {
  }
}
