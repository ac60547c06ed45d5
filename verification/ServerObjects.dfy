/**
  The objects of the server, updated in place, and their refinement of ChatServer: what
  each method does to the objects is what the step function does to their values.
 */
module ServerObjects {
  import opened Common
  import opened Framing
  import opened ChatServer
  import opened EventQueues

  class TcpConnection {
    const room: ChatRoom
    const joinHandler: JoinHandler
    const gameHandler: GameHandler
    const codec: Codec<Message>
    var accPacket: seq<Byte>
    var name: string
    var sent: seq<Message>
    ghost var frames: seq<seq<Byte>>
    ghost var received: seq<Byte>
    ghost var since: nat

    ghost function View(): Participant
      reads this
    {
      Participant(name, accPacket, sent, frames, received, since)
    }

    constructor (room: ChatRoom, joinHandler: JoinHandler, gameHandler: GameHandler, codec: Codec<Message>)
      ensures this.room == room && this.joinHandler == joinHandler && this.gameHandler == gameHandler && this.codec == codec
      ensures View() == Participant("", [], [], [], [], |gameHandler.queue.pushed|)
    {
      this.room, this.joinHandler, this.gameHandler, this.codec := room, joinHandler, gameHandler, codec;
      accPacket, name, sent := [], "", [];
      frames, received, since := [], [], |gameHandler.queue.pushed|;
    }

    method SendCommand(msg: Message)
      modifies this`sent
      ensures sent == old(sent) + [msg]
    {
      sent := sent + [msg];
    }

    method SetName(name: string)
      modifies this`name
      ensures this.name == name
    {
      this.name := name;
    }

    /** The connection is the i-th participant and shares the room and the queue with its handlers. */
    ghost predicate Connected(i: nat)
      reads this, room
    {
      && room.Valid()
      && i < |room.participants| && room.participants[i] == this
      && joinHandler.room == room
    }

    ghost function NetView(): Net
      reads this, room, room.participants, gameHandler.queue
    {
      Net(Views(room.participants), gameHandler.queue.pushed)
    }

    /** The callback of a read: append the bytes, parse once, dispatch. */
    method HandleReceive(chunk: seq<Byte>, ghost i: nat)
      requires Connected(i) && Overwrites(codec) && gameHandler.queue.Valid()
      modifies this, room.participants`sent, gameHandler.queue
      ensures Connected(i) && gameHandler.queue.Valid() && gameHandler.queue.taken == old(gameHandler.queue.taken)
      ensures NetView() == Read(codec, old(NetView()), i, chunk)
    {
      hide Dispatch, ScanOnce, Views;
      assert Views(room.participants)[i] == View();
      var maybeMsg := ParseChunk(chunk, i);
      if maybeMsg.Some? {
        DispatchMessage(maybeMsg.value, i);
      }
    }

    /** Append and parse: nothing is dispatched yet. */
    method ParseChunk(chunk: seq<Byte>, ghost i: nat) returns (r: Option<Message>)
      requires Connected(i) && Overwrites(codec)
      modifies this`accPacket, this`received, this`frames
      ensures var p, s := old(View()), ScanOnce(codec.size, old(accPacket) + chunk);
        var frames := if s.frame.Some? then p.frames + [s.frame.value] else p.frames;
        && Views(room.participants)
           == old(Views(room.participants))[i := p.(acc := s.rest, received := p.received + chunk, frames := frames)]
        && r == if s.frame.Some? then Some(codec.decode(codec.blank, s.frame.value)) else None
    {
      hide ScanOnce;
      ghost var views, s := Views(room.participants), ScanOnce(codec.size, accPacket + chunk);
      var packet := new Packet(accPacket + chunk);
      r := Parse(codec, packet);
      accPacket := packet.bytes;
      received := received + chunk;
      frames := if s.frame.Some? then frames + [s.frame.value] else frames;
      OneChanged(views, i);
    }

    /** Only this connection differs from what `room` says. */
    lemma OneChanged(room: seq<Participant>, i: nat)
      requires Connected(i) && |room| == |this.room.participants|
      requires forall k :: 0 <= k < |room| && k != i ==> this.room.participants[k].View() == room[k]
      ensures Views(this.room.participants) == room[i := View()]
    {
    }

    method DispatchMessage(msg: Message, ghost i: nat)
      requires Connected(i) && gameHandler.queue.Valid()
      modifies this`name, this`sent, room.participants`sent, gameHandler.queue
      ensures Connected(i) && gameHandler.queue.Valid() && gameHandler.queue.taken == old(gameHandler.queue.taken)
      ensures NetView() == Dispatch(old(NetView()), i, msg)
    {
      hide Join, Relay, Views;
      assert Views(room.participants)[i] == View();
      if name == "" {
        TryToJoin(msg, i);
        if name != "" {
          gameHandler.Handle(this, msg);
        }
      } else {
        Forward(msg, i);
        gameHandler.Handle(this, msg);
      }
    }

    method TryToJoin(msg: Message, ghost i: nat)
      requires Connected(i)
      modifies this`name, this`sent
      ensures Views(room.participants)
           == old(Views(room.participants))[i := Join(old(Views(room.participants)), old(View()), msg)]
      ensures View() == Join(old(Views(room.participants)), old(View()), msg)
    {
      hide Join;
      ghost var views := Views(room.participants);
      joinHandler.Handle(this, msg);
      OneChanged(views, i);
    }

    method Forward(msg: Message, ghost i: nat)
      requires Connected(i)
      modifies room.participants`sent
      ensures Views(room.participants) == Relay(old(Views(room.participants)), i, msg)
    {
      hide Relay;
      ghost var views := Views(room.participants);
      room.Handle(this, msg);
      OthersTold(views, i, msg);
    }

    lemma OthersTold(room: seq<Participant>, i: nat, msg: Message)
      requires Connected(i) && |room| == |this.room.participants|
      requires forall k :: 0 <= k < |room| ==>
        this.room.participants[k].View()
          == room[k].(sent := room[k].sent + if this.room.participants[k] != this && msg.Chat? then [msg] else [])
      ensures Views(this.room.participants) == Relay(room, i, msg)
    {
      forall k | 0 <= k < |room|
        ensures this.room.participants[k].View() == Relay(room, i, msg)[k]
      {
        assert this.room.participants[k] != this <==> k != i;
      }
    }
  }

  ghost function Views(participants: seq<TcpConnection>): (views: seq<Participant>)
    reads participants
    ensures |views| == |participants|
    ensures forall k :: 0 <= k < |views| ==> views[k] == participants[k].View()
  {
    if participants == [] then []
    else Views(participants[..|participants| - 1]) + [participants[|participants| - 1].View()]
  }

  lemma OneViewMore(participants: seq<TcpConnection>, c: TcpConnection)
    ensures Views(participants + [c]) == Views(participants) + [c.View()]
  {
    assert (participants + [c])[..|participants|] == participants;
  }

  class ChatRoom {
    var participants: seq<TcpConnection>

    /** Each accepted connection is in the room once. */
    ghost predicate Valid()
      reads this
    {
      forall i, j :: 0 <= i < j < |participants| ==> participants[i] != participants[j]
    }

    constructor ()
      ensures Valid() && participants == []
    {
      participants := [];
    }

    method Handle(emitter: TcpConnection, msg: Message)
      requires Valid()
      modifies participants`sent
      ensures forall k :: 0 <= k < |participants| ==>
        participants[k].sent == old(participants[k].sent) + if participants[k] != emitter && msg.Chat? then [msg] else []
    {
      match msg
      case Chat(_, _) => TransmitMessage(emitter, msg);
      case _ =>
    }

    /** The server's handle_new_connection. */
    method AddParticipant(participant: TcpConnection)
      requires Valid() && participant !in participants
      modifies this
      ensures Valid() && participants == old(participants) + [participant]
    {
      participants := participants + [participant];
    }

    method TransmitMessage(emitter: TcpConnection, message: Message)
      requires Valid()
      modifies participants`sent
      ensures forall k :: 0 <= k < |participants| ==>
        participants[k].sent == old(participants[k].sent) + if participants[k] != emitter then [message] else []
    {
      for i := 0 to |participants|
        invariant forall k :: 0 <= k < i ==>
          participants[k].sent == old(participants[k].sent) + if participants[k] != emitter then [message] else []
        invariant forall k :: i <= k < |participants| ==> participants[k].sent == old(participants[k].sent)
      {
        if participants[i] != emitter {
          participants[i].SendCommand(message);
        }
      }
    }

    method FindByName(name: string) returns (r: Option<TcpConnection>)
      ensures r.Some? <==> name != "" && NameTaken(Views(participants), name)
      ensures r.Some? ==> r.value in participants && r.value.name == name
    {
      if name == "" {
        return None;
      }
      var i := 0;
      while i < |participants|
        invariant 0 <= i <= |participants|
        invariant forall k :: 0 <= k < i ==> participants[k].name != name
      {
        if participants[i].name == name {
          assert Views(participants)[i].name == name;
          return Some(participants[i]);
        }
        i := i + 1;
      }
      return None;
    }
  }

  class JoinHandler {
    const room: ChatRoom

    constructor (room: ChatRoom)
      ensures this.room == room
    {
      this.room := room;
    }

    method Handle(emitter: TcpConnection, msg: Message)
      modifies emitter`name, emitter`sent
      ensures emitter.View() == Join(old(Views(room.participants)), old(emitter.View()), msg)
    {
      if !msg.JoinRequest? {
        return;
      }
      var candidate := msg.name;
      if candidate == "" {
        emitter.SendCommand(JoinNack("Name cannot be empty."));
        return;
      }
      var existing := room.FindByName(candidate);
      if existing.Some? {
        emitter.SendCommand(JoinNack("Name already exists."));
        return;
      }
      emitter.SetName(candidate);
      emitter.SendCommand(JoinAck);
    }
  }

  class GameHandler {
    const queue: EventQueue<GameEvent>

    constructor (queue: EventQueue<GameEvent>)
      ensures this.queue == queue
    {
      this.queue := queue;
    }

    method Handle(emitter: TcpConnection, msg: Message)
      requires queue.Valid()
      modifies queue
      ensures queue.Valid() && queue.taken == old(queue.taken)
      ensures queue.pushed == old(queue.pushed) + [GameEvent(emitter.name, msg)]
    {
      queue.Push(GameEvent(emitter.name, msg));
    }
  }

  class TcpServer {
    const room: ChatRoom
    const gameHandler: GameHandler
    const joinHandler: JoinHandler
    const codec: Codec<Message>

    constructor (room: ChatRoom, queue: EventQueue<GameEvent>, codec: Codec<Message>)
      ensures this.room == room && this.codec == codec
      ensures gameHandler.queue == queue && joinHandler.room == room
    {
      this.room, this.codec := room, codec;
      gameHandler := new GameHandler(queue);
      joinHandler := new JoinHandler(room);
    }

    /** A connection is accepted and enters the room. */
    method HandleNewConnection() returns (c: TcpConnection)
      requires room.Valid() && joinHandler.room == room
      modifies room
      ensures fresh(c) && c.room == room && c.codec == codec
      ensures c.gameHandler == gameHandler && c.joinHandler == joinHandler
      ensures c.Connected(|old(room.participants)|) && room.participants == old(room.participants) + [c]
      ensures Net(Views(room.participants), gameHandler.queue.pushed)
           == Accept(old(Net(Views(room.participants), gameHandler.queue.pushed)))
    {
      c := new TcpConnection(room, joinHandler, gameHandler, codec);
      ghost var before := room.participants;
      room.AddParticipant(c);
      OneViewMore(before, c);
      hide Views;
      assert room.participants[|before|] == c;
    }
  }

  /** What is behind the elements taken, before and after more were pushed. */
  lemma QueueGrows<T>(taken: seq<T>, before: seq<T>, after: seq<T>, pushed: seq<T>)
    requires taken + before <= pushed == taken + after
    ensures after == before + pushed[|taken + before|..]
  {
    assert after == pushed[|taken|..];
  }

  /** The program: the server and the main loop, on two sides of the event queue. */
  class Game {
    const room: ChatRoom
    const queue: EventQueue<GameEvent>
    const server: TcpServer
    const codec: Codec<Message>
    var sawEvents: bool

    ghost predicate Valid()
      reads this, room, queue
    {
      && room.Valid() && queue.Valid() && Overwrites(codec)
      && server.room == room && server.codec == codec
      && server.gameHandler.queue == queue && server.joinHandler.room == room
      && forall c :: c in room.participants ==>
           c.room == room && c.codec == codec && c.gameHandler.queue == queue && c.joinHandler.room == room
    }

    ghost function View(): World
      reads this, room, room.participants, queue
    {
      World(Net(Views(room.participants), queue.pushed), queue.queue, queue.taken, sawEvents)
    }

    constructor (codec: Codec<Message>)
      requires Overwrites(codec)
      ensures Valid() && View() == START && this.codec == codec
      ensures fresh(room) && fresh(queue) && room.participants == []
    {
      var participants := new ChatRoom();
      var events := new EventQueue<GameEvent>();
      server := new TcpServer(participants, events, codec);
      room, queue, this.codec, sawEvents := participants, events, codec, false;
    }

    method Accept() returns (c: TcpConnection)
      requires Valid()
      modifies room
      ensures Valid() && View() == Step(codec, old(View()), Accepting)
      ensures fresh(c) && room.participants == old(room.participants) + [c]
    {
      hide Views;
      c := server.HandleNewConnection();
    }

    method Receive(i: nat, chunk: seq<Byte>)
      requires Valid()
      modifies room.participants, queue
      ensures Valid() && View() == Step(codec, old(View()), Reading(i, chunk))
      ensures room.participants == old(room.participants)
    {
      hide Read, Views;
      if i < |room.participants| {
        ghost var before := View();
        room.participants[i].HandleReceive(chunk, i);
        ReadExtends(codec, before.net, i, chunk);
        QueueGrows(before.consumed, before.queue, queue.queue, queue.pushed);
      }
    }

    /** The main loop looks at the size of the queue. */
    method LookAtQueue()
      requires Valid()
      modifies this`sawEvents
      ensures Valid() && View() == Step(codec, old(View()), CheckSize)
    {
      var n := queue.Size();
      sawEvents := n != 0;
    }

    /** The main loop takes what is in the queue, after it has seen that there is something. */
    method Take() returns (commands: seq<GameEvent>)
      requires Valid()
      modifies this`sawEvents, queue
      ensures Valid() && View() == Step(codec, old(View()), TakeAll)
      ensures commands == if old(sawEvents) then old(queue.queue) else []
    {
      hide Views;
      commands := [];
      if sawEvents {
        ghost var before := View();
        commands := queue.Empty();
        sawEvents := false;
        QueueGrows(queue.taken, [], queue.queue, queue.pushed);
        QueueGrows(before.consumed, before.queue, commands, queue.pushed);
      }
    }

    method Perform(action: Action)
      requires Valid()
      modifies this`sawEvents, room, room.participants, queue
      ensures Valid() && View() == Step(codec, old(View()), action)
      ensures forall c :: c in room.participants ==> c in old(room.participants) || fresh(c)
    {
      hide Views, Step, Game.Valid;
      match action {
        case Accepting => var c := Accept();
        case Reading(i, chunk) => Receive(i, chunk);
        case CheckSize => LookAtQueue();
        case TakeAll => var commands := Take();
      }
    }

    /** Any calls of the network thread and the main loop, in any order, are a run of the state machine. */
    method PerformAll(actions: seq<Action>)
      requires Valid()
      modifies this`sawEvents, room, room.participants, queue
      ensures Valid() && View() == Exec(codec, old(View()), actions)
    {
      hide Step, Game.Valid, Game.View;
      assert actions[0..] == actions;
      for n := 0 to |actions|
        invariant Valid() && Exec(codec, View(), actions[n..]) == Exec(codec, old(View()), actions)
        invariant forall c :: c in room.participants ==> c in old(room.participants) || fresh(c)
      {
        assert actions[n..][1..] == actions[n + 1..];
        assert forall k :: 0 <= k < |room.participants| ==>
          room.participants[k] in old(room.participants) || fresh(room.participants[k]);
        Perform(actions[n]);
      }
    }
  }

  /** From the empty server, whatever calls are made: the objects satisfy the invariant of all runs. */
  method Play(codec: Codec<Message>, actions: seq<Action>) returns (game: Game)
    requires Overwrites(codec)
    ensures game.Valid() && game.codec == codec && fresh(game)
    ensures game.View() == Exec(codec, START, actions) && WorldInv(codec, game.View())
  {
    hide Exec, WorldInv;
    game := new Game(codec);
    game.PerformAll(actions);
    EveryRun(codec, actions);
  }
}
