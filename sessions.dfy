/** The server's shared state and one client session working on it, step by step: the
    session reads its first frame and registers, handles frames in its read loop, and
    cleans up when the loop ends. */
module Sessions {
  import opened Text
  import opened Presence
  import opened Protocol

  /** What one ReadAsync on a client stream gives: some bytes (decoded), zero bytes, or
      an exception. */
  datatype Read = Frame(text: string) | EndOfStream | Failure

  /** ConcurrentDictionary.TryAdd: inserts only when the key is absent. */
  function TryAdd(clients: map<ClientId, string>, key: ClientId, value: string): (r: map<ClientId, string>)
    ensures key in r && r.Keys == clients.Keys + {key}
    ensures forall k | k in clients :: r[k] == clients[k]
    ensures key !in clients ==> r[key] == value
  {
    if key in clients then clients else clients[key := value]
  }

  /** Removing a key that was just added to a map restores the map. */
  lemma AddThenRemove(m: map<ClientId, string>, k: ClientId, v: string)
    requires k !in m
    ensures m[k := v] - {k} == m
  {
  }

  /** The writes of one chat frame, in the order they happened: no recipient twice, and
      exactly the messages of the block. */
  predicate Block(writes: seq<Delivery>, block: set<Delivery>)
  {
    (forall i, j | 0 <= i < j < |writes| :: writes[i].to != writes[j].to)
    && (set d | d in writes) == block
  }

  /** A run of writes is the blocks one after the other, each block written out once. */
  predicate WritesAre(writes: seq<Delivery>, blocks: seq<set<Delivery>>)
    decreases |blocks|
  {
    if blocks == [] then writes == []
    else
      var last := blocks[|blocks| - 1];
      |last| <= |writes| && Block(writes[|writes| - |last|..], last)
      && WritesAre(writes[..|writes| - |last|], blocks[..|blocks| - 1])
  }

  /** Writes to distinct recipients are distinct messages, as many as there are writes. */
  lemma {:induction false} DistinctWrites(writes: seq<Delivery>)
    requires forall i, j | 0 <= i < j < |writes| :: writes[i].to != writes[j].to
    ensures |set d | d in writes| == |writes|
  {
    if writes != [] {
      var rest := writes[1..];
      DistinctWrites(rest);
      forall j | 0 <= j < |rest| ensures rest[j] != writes[0] {
        assert rest[j] == writes[j + 1];
      }
      assert (set d | d in writes) == {writes[0]} + (set d | d in rest);
    }
  }

  /** The writes of one chat frame, on their own, are that frame's block. */
  lemma OneBlock(writes: seq<Delivery>, block: set<Delivery>)
    requires Block(writes, block)
    ensures WritesAre(writes, [block])
  {
    DistinctWrites(writes);
    assert writes[|writes| - |block|..] == writes;
    assert [block][..0] == [];
  }

  /** Writes followed by the writes of one more block are the blocks followed by it. */
  lemma WritesExtend(writes: seq<Delivery>, blocks: seq<set<Delivery>>, more: seq<Delivery>, block: set<Delivery>)
    requires WritesAre(writes, blocks) && Block(more, block)
    ensures WritesAre(writes + more, blocks + [block])
  {
    DistinctWrites(more);
    var all, allBlocks := writes + more, blocks + [block];
    assert all[|all| - |block|..] == more;
    assert all[..|all| - |block|] == writes;
    assert allBlocks[..|allBlocks| - 1] == blocks;
  }

  /** Writes made of blocks with no message to a client contain no write to it. */
  lemma {:induction false} WritesAvoid(writes: seq<Delivery>, blocks: seq<set<Delivery>>, client: ClientId)
    requires WritesAre(writes, blocks) && NoneTo(blocks, client)
    ensures forall i | 0 <= i < |writes| :: writes[i].to != client
    decreases |blocks|
  {
    if blocks != [] {
      var last := blocks[|blocks| - 1];
      var n := |writes| - |last|;
      var front := blocks[..|blocks| - 1];
      assert NoneTo(front, client) by {
        forall k, d: Delivery | 0 <= k < |front| && d in front[k] ensures d.to != client {
          assert front[k] == blocks[k];
        }
      }
      WritesAvoid(writes[..n], front, client);
      forall i | 0 <= i < |writes| ensures writes[i].to != client {
        if i < n {
          assert writes[i] == writes[..n][i];
        } else {
          assert writes[i] == writes[n..][i - n];
          assert writes[i] in last;
        }
      }
    }
  }

  /** The chat lines of a frame, added to those of the frames before it, are the lines
      of all of them, in order. */
  lemma LinesAccumulate(chat0: seq<string>, lines: seq<string>, chat1: seq<string>, more: seq<string>, chat2: seq<string>)
    requires chat1 == chat0 + lines && chat2 == chat1 + more
    ensures chat2 == chat0 + (lines + more)
  {
  }

  lemma AppendAssoc<T>(x: seq<T>, y: seq<T>, z: seq<T>)
    ensures (x + y) + z == x + (y + z)
  {
  }

  /** The writes of a frame, at most one block, added to those of the frames before it,
      are the blocks of all of them, in order. */
  lemma WritesAccumulate(wire0: seq<Delivery>, written: seq<Delivery>, wire1: seq<Delivery>, wire2: seq<Delivery>,
                         blocks: seq<set<Delivery>>, step: seq<set<Delivery>>)
    requires wire1 == wire0 + written && WritesAre(written, blocks)
    requires |wire1| <= |wire2| && wire2[..|wire1|] == wire1 && WritesAre(wire2[|wire1|..], step) && |step| <= 1
    ensures wire2 == wire0 + (written + wire2[|wire1|..])
    ensures WritesAre(written + wire2[|wire1|..], blocks + step)
  {
    var more := wire2[|wire1|..];
    assert wire2 == wire1 + more;
    AppendAssoc(wire0, written, more);
    if step == [] {
      assert written + more == written && blocks + step == blocks;
    } else {
      assert more[|more| - |step[0]|..] == more;
      WritesExtend(written, blocks, more, step[0]);
      assert step == [step[0]];
    }
  }

  /** The state of the server window that every session works on. The sets connected and
      unwritable stand for what the sockets would report: which clients are still
      connected, and which streams would throw on a write. */
  class Server {
    var clients: map<ClientId, string>
    var connected: set<ClientId>
    var unwritable: set<ClientId>
    /** The lines appended to the chat box. */
    var chat: seq<string>
    /** The payloads handed to the UDP presence broadcast. */
    var datagrams: seq<string>
    /** Every message written successfully to a client stream, in order. */
    var wire: seq<Delivery>

    constructor ()
      ensures clients == map[] && connected == {} && unwritable == {}
      ensures chat == [] && datagrams == [] && wire == []
    {
      clients := map[];
      connected := {};
      unwritable := {};
      chat := [];
      datagrams := [];
      wire := [];
    }

    /** A connection accepted by the listener: connected until it is closed. */
    method Accept(client: ClientId)
      modifies this
      ensures connected == old(connected) + {client}
      ensures clients == old(clients) && unwritable == old(unwritable)
      ensures chat == old(chat) && datagrams == old(datagrams) && wire == old(wire)
    {
      connected := connected + {client};
    }
  }

  /** Connecting: before the first frame; Active: in the read loop; Closed: cleaned up. */
  datatype Phase = Connecting | Active | Closed

  /** One run of HandleClientAsync for one accepted client: its own locals, and the
      server state it shares with every other session. */
  class Session {
    const server: Server
    const client: ClientId
    const endPoint: string
    var clientName: string
    var oldName: string
    ghost var phase: Phase
    /** A usable rename has been handled. */
    ghost var renamed: bool

    ghost predicate Valid()
      reads this, server
    {
      (phase == Connecting ==> clientName == "" && !renamed)
      && (phase == Active ==>
            SessionInvariant(server.clients, client, endPoint, Locals(clientName, oldName), renamed))
    }

    constructor (server: Server, client: ClientId, endPoint: string)
      ensures this.server == server && this.client == client && this.endPoint == endPoint
      ensures clientName == "" && phase == Connecting && !renamed
      ensures Valid()
    {
      this.server := server;
      this.client := client;
      this.endPoint := endPoint;
      clientName := "";
      oldName := "";
      phase := Connecting;
      renamed := false;
    }

    /** The first read and the registration. A first read that throws goes straight to the
        cleanup, so nothing happens here; otherwise the name is the trimmed first frame
        (empty when zero bytes came), and the registry entry holds the remote endpoint. */
    method Open(first: Read) returns (ok: bool)
      requires Valid() && phase == Connecting
      requires client !in server.clients // a freshly accepted connection is never a key yet
      modifies this, server
      ensures Valid()
      ensures ok == !first.Failure?
      ensures !ok ==> (phase == Connecting && unchanged(server)
        && clientName == old(clientName) && oldName == old(oldName) && renamed == old(renamed))
      ensures ok ==> (phase == Active && !renamed
        && clientName == (if first.Frame? then Trim(first.text) else "")
        && oldName == clientName
        && server.clients == old(server.clients)[client := endPoint]
        && server.chat == old(server.chat) + [ConnectedLine(clientName)]
        && server.datagrams == old(server.datagrams) + [Announcement(clientName, Online)]
        && server.wire == old(server.wire)
        && server.connected == old(server.connected) && server.unwritable == old(server.unwritable))
    {
      if first.Failure? {
        return false;
      }
      if first.Frame? {
        clientName := Trim(first.text);
      }
      server.clients := TryAdd(server.clients, client, endPoint);
      server.chat := server.chat + [ConnectedLine(clientName)];
      server.datagrams := server.datagrams + [Announcement(clientName, Online)];
      oldName := clientName;
      phase := Active;
      ok := true;
    }

    /** A rename command with a usable name: the entry, both locals and the log take it. */
    method ApplyRename(newLogin: string)
      requires Valid() && phase == Active
      modifies this, server
      ensures Valid() && phase == Active && renamed
      ensures clientName == newLogin && oldName == newLogin
      ensures server.clients == old(server.clients)[client := newLogin]
      ensures server.chat == old(server.chat) + [RenameLine(old(oldName), newLogin)]
      ensures server.wire == old(server.wire) && server.datagrams == old(server.datagrams)
      ensures server.connected == old(server.connected) && server.unwritable == old(server.unwritable)
    {
      server.clients := server.clients[client := newLogin];
      clientName := newLogin;
      server.chat := server.chat + [RenameLine(oldName, newLogin)];
      oldName := newLogin;
      renamed := true;
    }

    /** A rename command whose name trims to nothing: only the error line is logged. */
    method RejectRename()
      requires Valid() && phase == Active
      modifies server
      ensures Valid()
      ensures server.chat == old(server.chat) + [EmptyLoginLine(endPoint)]
      ensures server.clients == old(server.clients) && server.wire == old(server.wire)
      ensures server.datagrams == old(server.datagrams)
      ensures server.connected == old(server.connected) && server.unwritable == old(server.unwritable)
    {
      server.chat := server.chat + [EmptyLoginLine(endPoint)];
    }

    /** Chat text: logged under the local name, then written to the others under the name
        the registry holds for this client. */
    method SendChat(message: string)
      requires Valid() && phase == Active
      modifies server
      ensures Valid()
      ensures server.chat == old(server.chat) + [ChatLine(clientName, message)]
      ensures |old(server.wire)| <= |server.wire| && server.wire[..|old(server.wire)|] == old(server.wire)
      ensures Block(server.wire[|old(server.wire)|..],
                    Broadcast(server.clients, server.connected, server.unwritable, client, message))
      ensures server.clients == old(server.clients) && server.datagrams == old(server.datagrams)
      ensures server.connected == old(server.connected) && server.unwritable == old(server.unwritable)
    {
      server.chat := server.chat + [ChatLine(clientName, message)];
      var sent := FanOut(server.clients, server.connected, server.unwritable, client, message);
      ghost var wire0 := server.wire;
      server.wire := server.wire + sent;
      assert server.wire[|wire0|..] == sent;
      assert (set d | d in sent) == Broadcast(server.clients, server.connected, server.unwritable, client, message);
    }

    /** One pass of the read loop over a frame that was read: a rename command, or chat
        text written to every other connected client. */
    method HandleFrame(frame: string)
      requires Valid() && phase == Active
      modifies this, server
      ensures Valid() && phase == Active
      ensures renamed == (old(renamed) || ParseFrame(frame).Rename?)
      ensures var e := FrameEffect(old(server.clients), old(server.connected), old(server.unwritable),
                                   client, endPoint, old(Locals(clientName, oldName)), frame);
        server.clients == e.clients && Locals(clientName, oldName) == e.locals
        && server.chat == old(server.chat) + e.log
        && |old(server.wire)| <= |server.wire| && server.wire[..|old(server.wire)|] == old(server.wire)
        && WritesAre(server.wire[|old(server.wire)|..], e.sent)
      ensures server.datagrams == old(server.datagrams)
      ensures server.connected == old(server.connected) && server.unwritable == old(server.unwritable)
    {
      match ParseFrame(frame) {
        case Rename(newLogin) =>
          ApplyRename(newLogin);
          assert server.wire[|old(server.wire)|..] == [];
        case EmptyRename =>
          RejectRename();
          assert server.wire[|old(server.wire)|..] == [];
        case Chat =>
          SendChat(frame);
          OneBlock(server.wire[|old(server.wire)|..],
                   Broadcast(old(server.clients), old(server.connected), old(server.unwritable), client, frame));
      }
    }

    /** The cleanup in the finally block, whichever way the loop ended: the entry goes,
        the connection is closed, and the departure is logged and announced under the
        last name. */
    method Close()
      requires Valid() && phase != Closed
      modifies this, server
      ensures phase == Closed && clientName == old(clientName) && oldName == old(oldName) && renamed == old(renamed)
      ensures server.clients == old(server.clients) - {client}
      ensures server.connected == old(server.connected) - {client}
      ensures server.chat == old(server.chat) + [DisconnectedLine(clientName)]
      ensures server.datagrams == old(server.datagrams) + [Announcement(clientName, Offline)]
      ensures server.wire == old(server.wire) && server.unwritable == old(server.unwritable)
    {
      server.clients := server.clients - {client};
      server.connected := server.connected - {client};
      server.chat := server.chat + [DisconnectedLine(clientName)];
      server.datagrams := server.datagrams + [Announcement(clientName, Offline)];
      phase := Closed;
    }

    /** The read loop over the frames that arrive before the read that ends it: the frames
        are handled one after the other, as Replay says. */
    method ReadLoop(frames: seq<string>)
      requires Valid() && phase == Active
      modifies this, server
      ensures Valid() && phase == Active
      ensures renamed == (old(renamed) || HasRename(frames))
      ensures var e := Replay(old(server.clients), old(server.connected), old(server.unwritable),
                              client, endPoint, old(Locals(clientName, oldName)), frames);
        server.clients == e.clients && Locals(clientName, oldName) == e.locals
        && server.chat == old(server.chat) + e.log
        && |old(server.wire)| <= |server.wire| && server.wire[..|old(server.wire)|] == old(server.wire)
        && WritesAre(server.wire[|old(server.wire)|..], e.sent)
      ensures server.datagrams == old(server.datagrams)
      ensures server.connected == old(server.connected) && server.unwritable == old(server.unwritable)
    {
      ghost var clients0, connected, unwritable := server.clients, server.connected, server.unwritable;
      ghost var chat0, wire0, renamed0 := server.chat, server.wire, renamed;
      ghost var locals0 := Locals(clientName, oldName);
      ghost var written: seq<Delivery> := [];
      for i := 0 to |frames|
        invariant Valid() && phase == Active
        invariant server.connected == connected && server.unwritable == unwritable
        invariant server.datagrams == old(server.datagrams)
        invariant renamed == (renamed0 || HasRename(frames[..i]))
        invariant var e := Replay(clients0, connected, unwritable, client, endPoint, locals0, frames[..i]);
          server.clients == e.clients && Locals(clientName, oldName) == e.locals
          && server.chat == chat0 + e.log
          && server.wire == wire0 + written && WritesAre(written, e.sent)
      {
        ghost var chat1, wire1 := server.chat, server.wire;
        ghost var before := Replay(clients0, connected, unwritable, client, endPoint, locals0, frames[..i]);
        ReplayStep(clients0, connected, unwritable, client, endPoint, locals0, frames, i);
        HandleFrame(frames[i]);
        ghost var step := FrameEffect(before.clients, connected, unwritable, client, endPoint, before.locals, frames[i]);
        LinesAccumulate(chat0, before.log, chat1, step.log, server.chat);
        WritesAccumulate(wire0, written, wire1, server.wire, before.sent, step.sent);
        written := written + server.wire[|wire1|..];
      }
      assert frames[..|frames|] == frames;
      assert server.wire[|wire0|..] == written;
    }

    /** The read loop followed by the cleanup: the frames are handled in order, then the
        entry is removed and the departure announced under the name the loop ended with. */
    method Serve(frames: seq<string>)
      requires Valid() && phase == Active
      modifies this, server
      ensures phase == Closed
      ensures var e := Replay(old(server.clients), old(server.connected), old(server.unwritable),
                              client, endPoint, old(Locals(clientName, oldName)), frames);
        clientName == e.locals.clientName
        && server.clients == old(server.clients) - {client}
        && server.chat == old(server.chat) + e.log + [DisconnectedLine(clientName)]
        && |old(server.wire)| <= |server.wire| && server.wire[..|old(server.wire)|] == old(server.wire)
        && WritesAre(server.wire[|old(server.wire)|..], e.sent)
      ensures server.datagrams == old(server.datagrams) + [Announcement(clientName, Offline)]
      ensures server.connected == old(server.connected) - {client} && server.unwritable == old(server.unwritable)
      ensures forall i | |old(server.wire)| <= i < |server.wire| :: server.wire[i].to != client
    {
      ghost var clients0, locals0, wire0, renamed0 := server.clients, Locals(clientName, oldName), server.wire, renamed;
      ReadLoop(frames);
      ReplayKeepsInvariant(clients0, server.connected, server.unwritable, client, endPoint, locals0, renamed0, frames);
      ReplayNeverEchoes(clients0, server.connected, server.unwritable, client, endPoint, locals0, frames);
      ghost var wire2 := server.wire;
      WritesAvoid(wire2[|wire0|..], Replay(clients0, server.connected, server.unwritable, client, endPoint, locals0, frames).sent, client);
      Close();
      forall i | |wire0| <= i < |wire2| ensures wire2[i].to != client {
        assert wire2[i] == wire2[|wire0|..][i - |wire0|];
      }
    }

    /** The whole of HandleClientAsync, for a connection that delivers the read first,
        then the frames, then a read that ends the loop. Zero bytes and an exception end it
        alike: both leave the loop for the same finally block, so the cleanup does not
        depend on which it was. Afterwards the registry is as it was before, exactly one departure was announced,
        and everything in between is what handling the frames in order does. */
    method Run(first: Read, frames: seq<string>, last: Read)
      requires Valid() && phase == Connecting
      requires client !in server.clients
      requires !last.Frame?
      modifies this, server
      ensures phase == Closed
      ensures server.clients == old(server.clients)
      ensures first.Failure? ==>
        clientName == "" && server.datagrams == old(server.datagrams) + [Announcement("", Offline)]
        && server.chat == old(server.chat) + [DisconnectedLine("")] && server.wire == old(server.wire)
        && oldName == old(oldName)
      ensures !first.Failure? ==>
        var name := if first.Frame? then Trim(first.text) else "";
        var e := Replay(old(server.clients)[client := endPoint], old(server.connected), old(server.unwritable),
                        client, endPoint, Locals(name, name), frames);
        clientName == e.locals.clientName
        && server.datagrams == old(server.datagrams) + [Announcement(name, Online), Announcement(clientName, Offline)]
        && server.chat == old(server.chat) + [ConnectedLine(name)] + e.log + [DisconnectedLine(clientName)]
        && |old(server.wire)| <= |server.wire| && server.wire[..|old(server.wire)|] == old(server.wire)
        && WritesAre(server.wire[|old(server.wire)|..], e.sent)
      ensures server.connected == old(server.connected) - {client} && server.unwritable == old(server.unwritable)
      ensures forall i | |old(server.wire)| <= i < |server.wire| :: server.wire[i].to != client
    {
      ghost var clients0 := server.clients;
      var ok := Open(first);
      if ok {
        Serve(frames);
        AddThenRemove(clients0, client, endPoint);
      } else {
        Close();
      }
    }
  }
}
