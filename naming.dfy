// How the name a session goes by evolves over a sequence of frames.

module Naming {
  import opened Text
  import opened Protocol

  /** After a usable rename, and as long as no further usable rename comes, the registry
      entry and both locals hold the new name, so every chat frame in between goes out
      under it. */
  lemma {:induction false} RenameSticks(clients: map<ClientId, string>, connected: set<ClientId>,
                                        unwritable: set<ClientId>, sender: ClientId, endPoint: string,
                                        locals: Locals, frames: seq<string>, k: nat, newLogin: string)
    requires k < |frames| && ParseFrame(frames[k]) == Rename(newLogin)
    requires forall j | k < j < |frames| :: !ParseFrame(frames[j]).Rename?
    ensures var e := Replay(clients, connected, unwritable, sender, endPoint, locals, frames);
      sender in e.clients && e.clients[sender] == newLogin && e.locals == Locals(newLogin, newLogin)
    decreases |frames|
  {
    var n := |frames|;
    var prev := Replay(clients, connected, unwritable, sender, endPoint, locals, frames[..n - 1]);
    if k == n - 1 {
      FrameRenames(prev.clients, connected, unwritable, sender, endPoint, prev.locals, frames[k], newLogin);
    } else {
      var front := frames[..n - 1];
      forall j | k < j < |front|
        ensures !ParseFrame(front[j]).Rename?
      {
        assert front[j] == frames[j];
      }
      RenameSticks(clients, connected, unwritable, sender, endPoint, locals, front, k, newLogin);
      FrameKeepsName(prev.clients, connected, unwritable, sender, endPoint, prev.locals, frames[n - 1]);
    }
  }
}
