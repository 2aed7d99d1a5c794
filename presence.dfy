/** The UDP presence channel of the server: the payloads it announces when a client
    connects or disconnects, and how its receive loop reads the announcements of peers. */
module Presence {
  import opened Wrappers
  import opened Text

  /** The marker that the receive loop looks for, and removes from the name. */
  const OnlineTag: string := "ONLINE"

  datatype Status = Online | Offline

  function StatusWord(status: Status): string
  {
    match status
    case Online => OnlineTag
    case Offline => "OFFLINE"
  }

  /** The payload handed to BroadcastUdpNotification: the name, a space, and the status word. */
  function Announcement(name: string, status: Status): string
  {
    name + " " + StatusWord(status)
  }

  /** How the receive loop reads a datagram: trimmed, accepted only when it ends with
      ONLINE, and then the name is what remains once every ONLINE is removed, trimmed again. */
  function ParseAnnouncement(datagram: string): (name: Option<string>)
    ensures name.Some? <==> EndsWith(Trim(datagram), OnlineTag)
    ensures name.Some? ==> Trimmed(name.value) && |name.value| < |Trim(datagram)|
  {
    var message := Trim(datagram);
    if EndsWith(message, OnlineTag) then
      SuffixOccurs(message, OnlineTag);
      ReplaceChangesIffOccurs(message, OnlineTag, "");
      Some(Trim(Replace(message, OnlineTag, "")))
    else
      None
  }

  lemma OnlineTagBorderFree()
    ensures BorderFree(OnlineTag)
  {
    forall k | 0 < k < |OnlineTag| ensures OnlineTag[k..] != OnlineTag[..|OnlineTag| - k] {
      // only the last character of ONLINE is an E
      assert OnlineTag[k..][5 - k] == 'E';
      assert OnlineTag[..|OnlineTag| - k][5 - k] == OnlineTag[5 - k] != 'E';
    }
  }

  /** Removing ONLINE from text that has none of its own followed by ONLINE gives the text. */
  lemma RemoveTrailingTag(front: string)
    requires !Occurs(front, OnlineTag)
    ensures Replace(front + OnlineTag, OnlineTag, "") == front
  {
    OnlineTagBorderFree();
    ReplaceTrailingOccurrence(front, OnlineTag, "");
    ReplaceAbsent(front, OnlineTag, "");
  }

  /** A datagram that trims to some text followed by ONLINE, where that text has no
      ONLINE of its own, is read as that text, trimmed. */
  lemma ParseTagged(datagram: string, front: string)
    requires Trim(datagram) == front + OnlineTag && !Occurs(front, OnlineTag)
    ensures ParseAnnouncement(datagram) == Some(Trim(front))
  {
    assert EndsWith(front + OnlineTag, OnlineTag) by {
      assert (front + OnlineTag)[|front|..] == OnlineTag;
    }
    RemoveTrailingTag(front);
  }

  /** An ONLINE announcement of a name that does not itself contain ONLINE is read back
      as that name, trimmed. */
  lemma AnnouncementRoundTrip(name: string)
    requires !Occurs(name, OnlineTag)
    ensures ParseAnnouncement(Announcement(name, Online)) == Some(Trim(name))
  {
    var spaced := name + " ";
    var front := spaced[Lead(spaced)..];
    TrimKeepsSuffix(spaced, OnlineTag);
    NoOccurrenceAppend(name, ' ', OnlineTag);
    NoOccurrenceInSuffix(spaced, Lead(spaced), OnlineTag);
    ParseTagged(Announcement(name, Online), front);
    TrimAfterLead(spaced);
    TrimIgnoresTrailingSpace(name, " ");
  }

  /** Every name the server itself announces was trimmed when it was read, so a name
      without ONLINE in it comes back unchanged. */
  lemma TrimmedAnnouncementRoundTrip(name: string)
    requires Trimmed(name) && !Occurs(name, OnlineTag)
    ensures ParseAnnouncement(Announcement(name, Online)) == Some(name)
  {
    AnnouncementRoundTrip(name);
    TrimTrimmed(name);
  }

  /** Text ending in OFFLINE does not end in ONLINE. */
  lemma OfflineNotTagged(front: string)
    ensures !EndsWith(front + "OFFLINE", OnlineTag)
  {
    var m := front + "OFFLINE";
    assert m[|m| - 5] == 'F';
    assert m[|m| - 6..][1] == m[|m| - 5];
  }

  /** An OFFLINE announcement is never taken for an arrival. */
  lemma OfflineIgnored(name: string)
    ensures ParseAnnouncement(Announcement(name, Offline)) == None
  {
    var spaced := name + " ";
    TrimKeepsSuffix(spaced, "OFFLINE");
    OfflineNotTagged(spaced[Lead(spaced)..]);
  }

  /** Replace removes ONLINE wherever it occurs, not only at the end: in "ONLINER ONLINE"
      both occurrences go and only "R " is left. */
  lemma RemoveTagEverywhere()
    ensures Replace("ONLINER ONLINE", OnlineTag, "") == "R "
  {
    var m := "ONLINER ONLINE";
    assert m[..6] == OnlineTag && m[6..] == "R ONLINE";
    assert "R ONLINE"[..6][0] == 'R' && "R ONLINE"[1..] == " ONLINE";
    assert " ONLINE"[..6][0] == ' ' && " ONLINE"[1..] == OnlineTag;
    assert OnlineTag[..6] == OnlineTag && OnlineTag[6..] == "";
    calc {
      Replace(m, OnlineTag, "");
      "" + Replace("R ONLINE", OnlineTag, "");
      "R" + Replace(" ONLINE", OnlineTag, "");
      "R" + (" " + Replace(OnlineTag, OnlineTag, ""));
      "R" + (" " + ("" + Replace("", OnlineTag, "")));
      "R ";
    }
  }

  /** Because of that, a name that contains ONLINE is mangled on the way through: the
      announcement of "ONLINER" is read as "R". */
  lemma NameContainingTagIsMangled()
    ensures ParseAnnouncement(Announcement("ONLINER", Online)) == Some("R")
  {
    var m := "ONLINER ONLINE";
    assert Announcement("ONLINER", Online) == m;
    assert Trim(m) == m by {
      assert Trimmed(m);
      TrimTrimmed(m);
    }
    assert EndsWith(m, OnlineTag) by {
      assert m[|m| - 6..] == OnlineTag;
    }
    RemoveTagEverywhere();
    assert Trim("R ") == "R" by {
      assert "R "[0..1] == "R";
      TrimOf("R ", 0, 1);
    }
  }

  /** What the UDP receive loop gets from one ReceiveAsync call. */
  datatype Received = Datagram(text: string) | ReceiveError(message: string)

  function PresenceLine(name: string): string
  {
    "Новый клиент " + name + " объявил себя онлайн (UDP)"
  }

  function UdpErrorLine(message: string): string
  {
    "UDP ошибка: " + message
  }

  /** The log lines one receive produces. */
  function LinesFor(r: Received): seq<string>
  {
    match r
    case Datagram(text) =>
      (match ParseAnnouncement(text) case Some(name) => [PresenceLine(name)] case None => [])
    case ReceiveError(message) => [UdpErrorLine(message)]
  }

  /** The log lines of a run of receives, in order. */
  function PresenceLog(received: seq<Received>): seq<string>
  {
    if received == [] then []
    else PresenceLog(received[..|received| - 1]) + LinesFor(received[|received| - 1])
  }

  /** One pass of the receive loop: a datagram that parses as an announcement logs the
      new client, any other datagram is ignored, and a failed receive logs the error. */
  method HandleReceive(r: Received) returns (lines: seq<string>)
    ensures lines == LinesFor(r)
    ensures |lines| <= 1
  {
    lines := [];
    match r {
      case Datagram(text) =>
        var name := ParseAnnouncement(text);
        if name.Some? {
          lines := [PresenceLine(name.value)];
        }
      case ReceiveError(e) =>
        lines := [UdpErrorLine(e)];
    }
  }

  /** The receive loop, for the receives the socket delivers while the server runs. */
  method ReceiveLoop(received: seq<Received>) returns (log: seq<string>)
    ensures log == PresenceLog(received)
    ensures |log| <= |received|
  {
    log := [];
    var i := 0;
    while i < |received|
      invariant 0 <= i <= |received|
      invariant log == PresenceLog(received[..i])
      invariant |log| <= i
    {
      LogStep(received, i);
      var lines := HandleReceive(received[i]);
      log := log + lines;
      i := i + 1;
    }
    assert received[..i] == received;
  }

  /** The log after one more receive of a run. */
  lemma LogStep(received: seq<Received>, i: nat)
    requires i < |received|
    ensures PresenceLog(received[..i + 1]) == PresenceLog(received[..i]) + LinesFor(received[i])
  {
    assert received[..i + 1][..i] == received[..i];
  }

  /** Each receive adds its own lines to the end of the log. */
  lemma LogAppend(rs: seq<Received>, r: Received)
    ensures PresenceLog(rs + [r]) == PresenceLog(rs) + LinesFor(r)
  {
    assert (rs + [r])[..|rs|] == rs;
  }

  /** An OFFLINE announcement leaves the log as it was. */
  lemma OfflineLeavesNoLine(rs: seq<Received>, name: string)
    ensures PresenceLog(rs + [Datagram(Announcement(name, Offline))]) == PresenceLog(rs)
  {
    LogAppend(rs, Datagram(Announcement(name, Offline)));
    OfflineIgnored(name);
  }

  /** The server also sends its announcements to its own receive loop. The arrival of a
      session, under a trimmed name free of ONLINE, adds one line with that name to the
      log, wherever it falls among the other receives. */
  lemma OwnArrivalLogged(rs: seq<Received>, name: string)
    requires Trimmed(name) && !Occurs(name, OnlineTag)
    ensures PresenceLog(rs + [Datagram(Announcement(name, Online))]) == PresenceLog(rs) + [PresenceLine(name)]
  {
    LogAppend(rs, Datagram(Announcement(name, Online)));
    TrimmedAnnouncementRoundTrip(name);
  }
}
