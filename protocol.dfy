/** What one client session does with the frames it reads, as values: the rename command,
    the chat fan-out, and the registry entry that the session owns. */
module Protocol {
  import opened Text

  /** The identity of one accepted TcpClient, the key of the registry. */
  type ClientId = nat

  /** One message written to another client's stream. */
  datatype Delivery = Delivery(to: ClientId, text: string)

  /** The locals of HandleClientAsync that survive from one frame to the next. */
  datatype Locals = Locals(clientName: string, oldName: string)

  /** What handling frames does: the registry afterwards, the locals afterwards, the
      messages written to other clients, one block per chat frame in the order of the
      frames (the order within a block is the registry's enumeration order, which is
      unspecified), and the lines appended to the chat log. */
  datatype Effect = Effect(clients: map<ClientId, string>, locals: Locals, sent: seq<set<Delivery>>, log: seq<string>)

  const LoginPrefix: string := "/login "

  /** A frame is a rename command with a usable name, a rename command whose name trims
      to nothing, or chat text. */
  datatype Command = Rename(newLogin: string) | EmptyRename | Chat

  function ParseFrame(frame: string): (c: Command)
    ensures c.Chat? <==> !StartsWith(frame, LoginPrefix)
    ensures c.Rename? ==> c.newLogin != [] && Trimmed(c.newLogin)
  {
    if StartsWith(frame, LoginPrefix) then
      var newLogin := Trim(frame[|LoginPrefix|..]);
      if newLogin != [] then Rename(newLogin) else EmptyRename
    else
      Chat
  }

  /** A rename command is usable exactly when what follows the prefix trims to something,
      and the new name is then that trimmed text; otherwise it is a rename to nothing. */
  lemma ParseLogin(frame: string)
    requires StartsWith(frame, LoginPrefix)
    ensures var rest := Trim(frame[|LoginPrefix|..]);
      ParseFrame(frame) == (if rest != [] then Rename(rest) else EmptyRename)
  {
  }

  /** The text of a chat message, both as logged and as written to the other clients. */
  function ChatLine(name: string, message: string): string
  {
    "От " + name + ": " + message
  }

  function ConnectedLine(name: string): string
  {
    "Подключился: " + name
  }

  function RenameLine(oldName: string, newLogin: string): string
  {
    "Пользователь " + oldName + " сменил логин на: " + newLogin
  }

  function EmptyLoginLine(endPoint: string): string
  {
    "Ошибка: Пустой логин после команды /login от " + endPoint
  }

  function DisconnectedLine(name: string): string
  {
    "Отключен: " + name
  }

  /** The registry entries a chat frame is written to: every other client that is still
      connected. */
  function Recipients(clients: map<ClientId, string>, connected: set<ClientId>, sender: ClientId): set<ClientId>
  {
    set k | k in clients && k != sender && k in connected
  }

  /** The writes of a chat frame that succeed. The text carries the sender's name as the
      registry holds it; a write to a broken stream fails, and so does every write when the
      sender has no entry (its indexer throws), and failures are swallowed. */
  function Broadcast(clients: map<ClientId, string>, connected: set<ClientId>, unwritable: set<ClientId>,
                     sender: ClientId, message: string): (sent: set<Delivery>)
    ensures forall d :: d in sent <==>
      sender in clients && d.to in clients && d.to != sender && d.to in connected && d.to !in unwritable
      && d.text == ChatLine(clients[sender], message)
  {
    if sender in clients then
      set k | k in Recipients(clients, connected, sender) && k !in unwritable :: Delivery(k, ChatLine(clients[sender], message))
    else {}
  }

  /** The foreach over the registry that writes a chat frame to the other clients: each
      recipient at most once, and exactly the ones whose write succeeds. */
  method FanOut(clients: map<ClientId, string>, connected: set<ClientId>, unwritable: set<ClientId>,
                sender: ClientId, message: string) returns (sent: seq<Delivery>)
    ensures forall i, j | 0 <= i < j < |sent| :: sent[i].to != sent[j].to
    ensures forall d | d in sent ::
      sender in clients && d.to in Recipients(clients, connected, sender) && d.to !in unwritable
      && d.text == ChatLine(clients[sender], message)
    ensures sender in clients ==>
      forall k | k in Recipients(clients, connected, sender) && k !in unwritable ::
        Delivery(k, ChatLine(clients[sender], message)) in sent
  {
    sent := [];
    var pending := clients.Keys;
    while pending != {}
      invariant pending <= clients.Keys
      invariant forall i, j | 0 <= i < j < |sent| :: sent[i].to != sent[j].to
      invariant forall d | d in sent ::
        d.to !in pending && sender in clients && d.to in Recipients(clients, connected, sender)
        && d.to !in unwritable && d.text == ChatLine(clients[sender], message)
      invariant sender in clients ==>
        forall k | k in Recipients(clients, connected, sender) && k !in unwritable && k !in pending ::
          Delivery(k, ChatLine(clients[sender], message)) in sent
      decreases |pending|
    {
      var k :| k in pending;
      if k != sender && k in connected {
        // reading the sender's entry throws when it is missing, and writing throws when
        // the stream is broken; the catch swallows both
        if sender in clients && k !in unwritable {
          sent := sent + [Delivery(k, ChatLine(clients[sender], message))];
        }
      }
      pending := pending - {k};
    }
  }

  /** One pass of the read loop over a frame that was read. */
  function FrameEffect(clients: map<ClientId, string>, connected: set<ClientId>, unwritable: set<ClientId>,
                       sender: ClientId, endPoint: string, locals: Locals, frame: string): (e: Effect)
    // a rename command, usable or not, is never broadcast
    ensures StartsWith(frame, LoginPrefix) ==> e.sent == []
    // a chat frame and a rename to nothing change neither the registry nor the locals
    ensures !ParseFrame(frame).Rename? ==> e.clients == clients && e.locals == locals
    // a usable rename stores the new name in the sender's entry and in both locals
    ensures ParseFrame(frame).Rename? ==>
      e.clients == clients[sender := ParseFrame(frame).newLogin]
      && e.locals == Locals(ParseFrame(frame).newLogin, ParseFrame(frame).newLogin)
    // a chat frame reaches exactly the connected others whose write succeeds, unmodified,
    // behind the sender's name as the registry holds it
    ensures ParseFrame(frame).Chat? ==> e.sent == [Broadcast(clients, connected, unwritable, sender, frame)]
    // the one log line: the rename with the previous name, the error with the endpoint,
    // or the chat text under the local name
    ensures e.log == match ParseFrame(frame)
      case Rename(newLogin) => [RenameLine(locals.oldName, newLogin)]
      case EmptyRename => [EmptyLoginLine(endPoint)]
      case Chat => [ChatLine(locals.clientName, frame)]
  {
    match ParseFrame(frame)
    case Rename(newLogin) =>
      Effect(clients[sender := newLogin], Locals(newLogin, newLogin), [], [RenameLine(locals.oldName, newLogin)])
    case EmptyRename =>
      Effect(clients, locals, [], [EmptyLoginLine(endPoint)])
    case Chat =>
      Effect(clients, locals, [Broadcast(clients, connected, unwritable, sender, frame)], [ChatLine(locals.clientName, frame)])
  }

  /** The frames of a session, handled one after the other, with the effects accumulated. */
  function Replay(clients: map<ClientId, string>, connected: set<ClientId>, unwritable: set<ClientId>,
                  sender: ClientId, endPoint: string, locals: Locals, frames: seq<string>): Effect
    decreases |frames|
  {
    if frames == [] then Effect(clients, locals, [], [])
    else
      var before := Replay(clients, connected, unwritable, sender, endPoint, locals, frames[..|frames| - 1]);
      var step := FrameEffect(before.clients, connected, unwritable, sender, endPoint, before.locals, frames[|frames| - 1]);
      Effect(step.clients, step.locals, before.sent + step.sent, before.log + step.log)
  }

  /** Replaying one more frame of a sequence is handling that frame after the ones before. */
  lemma ReplayStep(clients: map<ClientId, string>, connected: set<ClientId>, unwritable: set<ClientId>,
                   sender: ClientId, endPoint: string, locals: Locals, frames: seq<string>, i: nat)
    requires i < |frames|
    ensures var before := Replay(clients, connected, unwritable, sender, endPoint, locals, frames[..i]);
      var step := FrameEffect(before.clients, connected, unwritable, sender, endPoint, before.locals, frames[i]);
      Replay(clients, connected, unwritable, sender, endPoint, locals, frames[..i + 1])
        == Effect(step.clients, step.locals, before.sent + step.sent, before.log + step.log)
    ensures HasRename(frames[..i + 1]) == (HasRename(frames[..i]) || ParseFrame(frames[i]).Rename?)
  {
    assert frames[..i + 1][..i] == frames[..i];
  }

  /** The state a session keeps while it is in its read loop: its entry is present and
      holds the remote endpoint until the first usable rename, and the current name
      afterwards; oldName always equals clientName. */
  predicate SessionInvariant(clients: map<ClientId, string>, sender: ClientId, endPoint: string,
                             locals: Locals, renamed: bool)
  {
    sender in clients && clients[sender] == (if renamed then locals.clientName else endPoint)
    && locals.oldName == locals.clientName
  }

  /** Some frame of the sequence is a usable rename. */
  predicate HasRename(frames: seq<string>)
    decreases |frames|
  {
    frames != [] && (HasRename(frames[..|frames| - 1]) || ParseFrame(frames[|frames| - 1]).Rename?)
  }

  /** Handling one frame keeps the session invariant; a usable rename switches the entry
      from the endpoint to the name. */
  lemma FrameKeepsInvariant(clients: map<ClientId, string>, connected: set<ClientId>,
                            unwritable: set<ClientId>, sender: ClientId, endPoint: string,
                            locals: Locals, renamed: bool, frame: string)
    requires SessionInvariant(clients, sender, endPoint, locals, renamed)
    ensures var e := FrameEffect(clients, connected, unwritable, sender, endPoint, locals, frame);
      SessionInvariant(e.clients, sender, endPoint, e.locals, renamed || ParseFrame(frame).Rename?)
      && e.clients.Keys == clients.Keys && e.clients - {sender} == clients - {sender}
  {
  }

  /** Handling any sequence of frames keeps the session invariant, and leaves every other
      client's entry as it was. */
  lemma {:induction false} ReplayKeepsInvariant(clients: map<ClientId, string>, connected: set<ClientId>,
                                                unwritable: set<ClientId>, sender: ClientId, endPoint: string,
                                                locals: Locals, renamed: bool, frames: seq<string>)
    requires SessionInvariant(clients, sender, endPoint, locals, renamed)
    ensures var e := Replay(clients, connected, unwritable, sender, endPoint, locals, frames);
      SessionInvariant(e.clients, sender, endPoint, e.locals, renamed || HasRename(frames))
      && e.clients.Keys == clients.Keys && e.clients - {sender} == clients - {sender}
    decreases |frames|
  {
    if frames != [] {
      var n := |frames|;
      var front := frames[..n - 1];
      ReplayKeepsInvariant(clients, connected, unwritable, sender, endPoint, locals, renamed, front);
      var before := Replay(clients, connected, unwritable, sender, endPoint, locals, front);
      FrameKeepsInvariant(before.clients, connected, unwritable, sender, endPoint, before.locals,
                          renamed || HasRename(front), frames[n - 1]);
    }
  }

  /** No block of writes holds a message to the given client. */
  predicate NoneTo(blocks: seq<set<Delivery>>, client: ClientId)
  {
    forall k, d | 0 <= k < |blocks| && d in blocks[k] :: d.to != client
  }

  /** No message of a session is ever written back to the session's own client. */
  lemma {:induction false} ReplayNeverEchoes(clients: map<ClientId, string>, connected: set<ClientId>,
                                             unwritable: set<ClientId>, sender: ClientId, endPoint: string,
                                             locals: Locals, frames: seq<string>)
    ensures NoneTo(Replay(clients, connected, unwritable, sender, endPoint, locals, frames).sent, sender)
    decreases |frames|
  {
    if frames != [] {
      var front := frames[..|frames| - 1];
      ReplayNeverEchoes(clients, connected, unwritable, sender, endPoint, locals, front);
      var before := Replay(clients, connected, unwritable, sender, endPoint, locals, front);
      var last := frames[|frames| - 1];
      var step := FrameEffect(before.clients, connected, unwritable, sender, endPoint, before.locals, last);
      assert step.sent == [] || step.sent == [Broadcast(before.clients, connected, unwritable, sender, last)] by {
        if ParseFrame(last).Chat? {
        } else {
          assert StartsWith(last, LoginPrefix);
        }
      }
      forall k, d | 0 <= k < |before.sent + step.sent| && d in (before.sent + step.sent)[k] ensures d.to != sender {
        if k >= |before.sent| {
          assert (before.sent + step.sent)[k] == step.sent[k - |before.sent|];
          assert d in Broadcast(before.clients, connected, unwritable, sender, last);
          assert d.to != sender;
        } else {
          assert (before.sent + step.sent)[k] == before.sent[k];
          assert d in before.sent[k];
        }
      }
    }
  }

  /** A frame that starts with "/login ": when the rest trims to a name, the entry and both
      locals take it and nothing is written; when it trims to nothing, only the error with
      the endpoint is logged. */
  lemma LoginCommand(clients: map<ClientId, string>, connected: set<ClientId>, unwritable: set<ClientId>,
                     sender: ClientId, endPoint: string, locals: Locals, frame: string)
    requires StartsWith(frame, LoginPrefix)
    ensures var e := FrameEffect(clients, connected, unwritable, sender, endPoint, locals, frame);
      var newLogin := Trim(frame[|LoginPrefix|..]);
      e.sent == []
      && (newLogin != [] ==>
            e.clients == clients[sender := newLogin] && e.locals == Locals(newLogin, newLogin)
            && e.log == [RenameLine(locals.oldName, newLogin)])
      && (newLogin == [] ==>
            e.clients == clients && e.locals == locals && e.log == [EmptyLoginLine(endPoint)])
  {
  }

  lemma FrameRenames(clients: map<ClientId, string>, connected: set<ClientId>, unwritable: set<ClientId>,
                     sender: ClientId, endPoint: string, locals: Locals, frame: string, newLogin: string)
    requires ParseFrame(frame) == Rename(newLogin)
    ensures var e := FrameEffect(clients, connected, unwritable, sender, endPoint, locals, frame);
      e.clients == clients[sender := newLogin] && e.locals == Locals(newLogin, newLogin)
  {
  }

  lemma FrameKeepsName(clients: map<ClientId, string>, connected: set<ClientId>, unwritable: set<ClientId>,
                       sender: ClientId, endPoint: string, locals: Locals, frame: string)
    requires !ParseFrame(frame).Rename?
    ensures var e := FrameEffect(clients, connected, unwritable, sender, endPoint, locals, frame);
      e.clients == clients && e.locals == locals
  {
  }
}
