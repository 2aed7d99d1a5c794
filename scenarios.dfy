/** The behaviour of a two-client conversation, worked out on concrete inputs: what the
    other client receives, what is logged, and what a rename does. */
module Scenarios {
  import opened Text
  import opened Protocol
  import opened Sessions

  const AliceEndPoint: string := "10.0.0.1:50001"
  const BobEndPoint: string := "10.0.0.2:50002"

  /** The registry once both clients have registered: each entry holds an endpoint. */
  function Registered(): map<ClientId, string>
  {
    map[1 := AliceEndPoint, 2 := BobEndPoint]
  }

  /** A's chat frame "hi" is logged under A's name, and B receives it behind A's endpoint,
      because that is what the registry holds until A renames itself; A gets nothing. */
  lemma ChatCarriesEndPoint()
    ensures var e := FrameEffect(Registered(), {1, 2}, {}, 1, AliceEndPoint, Locals("Alice", "Alice"), "hi");
      e.sent == [{Delivery(2, ChatLine(AliceEndPoint, "hi"))}]
      && e.log == [ChatLine("Alice", "hi")] && e.clients == Registered()
  {
    var e := FrameEffect(Registered(), {1, 2}, {}, 1, AliceEndPoint, Locals("Alice", "Alice"), "hi");
    assert !StartsWith("hi", LoginPrefix);
    OnlyTo(e.sent[0], Delivery(2, ChatLine(AliceEndPoint, "hi")));
  }

  /** After "/login Alicia" nothing is broadcast; the following "yo" reaches B as
      "От Alicia: yo". */
  lemma RenameThenChat()
    ensures var e := Replay(Registered(), {1, 2}, {}, 1, AliceEndPoint, Locals("Alice", "Alice"),
                            ["/login Alicia", "yo"]);
      e.clients == Registered()[1 := "Alicia"] && e.locals == Locals("Alicia", "Alicia")
      && e.sent == [{Delivery(2, ChatLine("Alicia", "yo"))}]
      && e.log == [RenameLine("Alice", "Alicia"), ChatLine("Alicia", "yo")]
  {
    var frames := ["/login Alicia", "yo"];
    assert "/login Alicia"[..|LoginPrefix|] == LoginPrefix;
    assert "/login Alicia"[|LoginPrefix|..] == "Alicia";
    TrimTrimmed("Alicia");
    assert ParseFrame("/login Alicia") == Rename("Alicia");
    assert !StartsWith("yo", LoginPrefix);
    assert frames[..1] == ["/login Alicia"] && frames[..1][..0] == [] && frames[..2] == frames;
    var first := FrameEffect(Registered(), {1, 2}, {}, 1, AliceEndPoint, Locals("Alice", "Alice"), frames[0]);
    var second := FrameEffect(first.clients, {1, 2}, {}, 1, AliceEndPoint, first.locals, frames[1]);
    OnlyTo(second.sent[0], Delivery(2, ChatLine("Alicia", "yo")));
  }

  /** "/login " with nothing after it changes no name, logs the error with A's endpoint and
      broadcasts nothing. */
  lemma EmptyLoginKeepsName()
    ensures var e := FrameEffect(Registered(), {1, 2}, {}, 1, AliceEndPoint, Locals("Alicia", "Alicia"), "/login ");
      e == Effect(Registered(), Locals("Alicia", "Alicia"), [], [EmptyLoginLine(AliceEndPoint)])
  {
    assert "/login "[|LoginPrefix|..] == [];
    TrimOf([], 0, 0);
  }

  /** A set of writes that contains d and holds only writes to d's recipient with d's
      text is {d}. */
  lemma OnlyTo(sent: set<Delivery>, d: Delivery)
    requires d in sent
    requires forall x | x in sent :: x.to == d.to && x.text == d.text
    ensures sent == {d}
  {
  }

  /** A server on which A, then B, have connected and registered under their first frames. */
  method ConnectBoth() returns (server: Server, alice: Session)
    ensures fresh(server) && fresh(alice) && alice.server == server
    ensures alice.client == 1 && alice.endPoint == AliceEndPoint
    ensures alice.Valid() && alice.phase == Active && alice.clientName == "Alice" && alice.oldName == "Alice"
    ensures server.clients == Registered() && server.connected == {1, 2} && server.unwritable == {}
    ensures server.chat == [ConnectedLine("Alice"), ConnectedLine("Bob")] && server.wire == []
  {
    TrimTrimmed("Alice");
    TrimTrimmed("Bob");
    server := new Server();
    server.Accept(1);
    server.Accept(2);
    alice := new Session(server, 1, AliceEndPoint);
    var bob := new Session(server, 2, BobEndPoint);
    var ok := alice.Open(Frame("Alice"));
    ok := bob.Open(Frame("Bob"));
  }

  /** Two sessions on one server: A and B register, A says "hi", and the only write that
      happens is B receiving it behind A's endpoint. */
  method TwoClients() returns (wire: seq<Delivery>, chat: seq<string>)
    ensures wire == [Delivery(2, ChatLine(AliceEndPoint, "hi"))]
    ensures chat == [ConnectedLine("Alice"), ConnectedLine("Bob"), ChatLine("Alice", "hi")]
  {
    var server, alice := ConnectBoth();
    ChatCarriesEndPoint();
    alice.HandleFrame("hi");
    wire := server.wire;
    chat := server.chat;
    assert wire[0..] == wire;
    SingleWrite(wire, Delivery(2, ChatLine(AliceEndPoint, "hi")));
  }

  /** Writes that are a single block holding one message are that one message. */
  lemma SingleWrite(wire: seq<Delivery>, d: Delivery)
    requires WritesAre(wire, [{d}])
    ensures wire == [d]
  {
    assert |{d}| == 1;
    assert [{d}][..0] == [];
    assert |wire| == 1;
    var tail := wire[|wire| - 1..];
    assert tail[0] in (set x | x in tail);
  }
}
