/** Keeping a local copy of a remote denylist by appending what is missing (RFC 9110, sections 14.2, 15.3.7, 15.5.17). */
module Subscription {
  const PARTIAL_CONTENT: nat := 206
  const BAD_REQUEST: nat := 400
  const RANGE_NOT_SATISFIABLE: nat := 416
  const INTERNAL_SERVER_ERROR: nat := 500

  /** What comes back for a request: nothing, or a status and a body of which `copied` bytes arrive before the connection ends. */
  datatype Reply = NoReply | Reply(status: nat, body: string, copied: nat)

  /** The answer of a server to a request for the bytes from an offset on. */
  type Server = nat -> Reply

  /** The local file after a reply: only partial content is ever written, and always at the end. */
  function AfterReply(local: string, reply: Reply): string {
    if reply.Reply? && reply.status == PARTIAL_CONTENT
    then local + if reply.copied <= |reply.body| then reply.body[..reply.copied] else reply.body
    else local
  }

  /** Partial content for `bytes=offset-` is the rest of the resource, and there is some. */
  predicate CorrectReply(remote: string, offset: nat, reply: Reply) {
    reply.Reply? && reply.status == PARTIAL_CONTENT ==> offset < |remote| && reply.body == remote[offset..]
  }

  ghost predicate Serves(server: Server, remote: string) {
    forall offset :: CorrectReply(remote, offset, server(offset))
  }

  predicate IsPartial(reply: Reply) {
    reply.Reply? && reply.status == PARTIAL_CONTENT
  }

  /** Partial content that arrived to its end. */
  predicate IsComplete(reply: Reply) {
    IsPartial(reply) && reply.copied >= |reply.body|
  }

  /** What arrived of a correct partial content is appended, to the byte; anything else changes nothing. */
  lemma ReplyKeepsPrefix(remote: string, local: string, reply: Reply)
    requires local <= remote && CorrectReply(remote, |local|, reply)
    ensures local <= AfterReply(local, reply) <= remote
    ensures IsComplete(reply) ==> AfterReply(local, reply) == remote
    ensures IsPartial(reply) && !IsComplete(reply) ==> |AfterReply(local, reply)| == |local| + reply.copied
    ensures !IsPartial(reply) ==> AfterReply(local, reply) == local
  {
    assert remote == local + remote[|local|..];
  }

  // ---- many syncs ----

  /** The local file after a sync with each server in turn. */
  function AfterSyncs(local: string, servers: seq<Server>): string {
    if servers == [] then local
    else
      var before := AfterSyncs(local, servers[..|servers| - 1]);
      AfterReply(before, servers[|servers| - 1](|before|))
  }

  /** The remote file grows, and at its i-th content the i-th server answers for it. */
  ghost predicate Publishes(servers: seq<Server>, remotes: seq<string>) {
    && |remotes| == |servers| + 1
    && forall i | 0 <= i < |servers| :: remotes[i] <= remotes[i + 1] && Serves(servers[i], remotes[i + 1])
  }

  lemma NextSync(local: string, servers: seq<Server>, remotes: seq<string>, n: nat)
    requires Publishes(servers, remotes) && n < |servers| && AfterSyncs(local, servers[..n]) <= remotes[n]
    ensures AfterSyncs(local, servers[..n]) <= AfterSyncs(local, servers[..n + 1]) <= remotes[n + 1]
    ensures IsComplete(servers[n](|AfterSyncs(local, servers[..n])|)) ==> AfterSyncs(local, servers[..n + 1]) == remotes[n + 1]
  {
    var before := AfterSyncs(local, servers[..n]);
    assert servers[..n + 1][..n] == servers[..n];
    assert CorrectReply(remotes[n + 1], |before|, servers[n](|before|));
    ReplyKeepsPrefix(remotes[n + 1], before, servers[n](|before|));
  }

  /** After any number of syncs the local file is a prefix of the remote. */
  lemma {:induction false} SyncsKeepPrefix(local: string, servers: seq<Server>, remotes: seq<string>, n: nat)
    requires Publishes(servers, remotes) && local <= remotes[0] && n <= |servers|
    ensures AfterSyncs(local, servers[..n]) <= remotes[n]
  {
    if n == 0 {
    } else {
      SyncsKeepPrefix(local, servers, remotes, n - 1);
      NextSync(local, servers, remotes, n - 1);
    }
  }

  /** And it only grows. */
  lemma {:induction false} SyncsGrow(local: string, servers: seq<Server>, remotes: seq<string>, k: nat, n: nat)
    requires Publishes(servers, remotes) && local <= remotes[0] && k <= n <= |servers|
    ensures AfterSyncs(local, servers[..k]) <= AfterSyncs(local, servers[..n])
    decreases n - k
  {
    if n == k {
    } else {
      SyncsGrow(local, servers, remotes, k, n - 1);
      SyncsKeepPrefix(local, servers, remotes, n - 1);
      NextSync(local, servers, remotes, n - 1);
    }
  }

  /** After a sync that was answered completely the local file has all that the remote had then. */
  lemma CompleteSyncCatchesUp(local: string, servers: seq<Server>, remotes: seq<string>, i: nat)
    requires Publishes(servers, remotes) && local <= remotes[0] && i < |servers|
    requires IsComplete(servers[i](|AfterSyncs(local, servers[..i])|))
    ensures remotes[i + 1] <= AfterSyncs(local, servers)
  {
    SyncsKeepPrefix(local, servers, remotes, i);
    NextSync(local, servers, remotes, i);
    SyncsGrow(local, servers, remotes, i + 1, |servers|);
    assert servers[..|servers|] == servers;
  }

  class HTTPSubscriber {
    var localFile: string

    constructor (content: string)
      ensures localFile == content
    {
      localFile := content;
    }

    /** One sync: ask for what follows the bytes already here, append it if it comes as partial content. */
    method DownloadAndAppend(server: Server) returns (failed: bool)
      modifies this
      ensures localFile == AfterReply(old(localFile), server(|old(localFile)|))
      ensures failed <==>
              match server(|old(localFile)|)
              case NoReply => true
              case Reply(status, body, copied) =>
                if status == PARTIAL_CONTENT then copied < |body|
                else status >= BAD_REQUEST && status != RANGE_NOT_SATISFIABLE
    {
      var localFileSize := |localFile|;
      match server(localFileSize) {
        case NoReply => return true;
        case Reply(status, body, copied) =>
          if status == PARTIAL_CONTENT {
            if copied < |body| {
              localFile := localFile + body[..copied];
              return true;
            }
            localFile := localFile + body;
          } else if (status >= BAD_REQUEST && status != RANGE_NOT_SATISFIABLE) || status >= INTERNAL_SERVER_ERROR {
            return true;
          }
          return false;
      }
    }

    /** The subscription loop: one sync a tick, failures only logged. */
    method Subscribe(servers: seq<Server>)
      modifies this
      ensures localFile == AfterSyncs(old(localFile), servers)
    {
      assert servers[..|servers|] == servers;
      for i := 0 to |servers|
        invariant localFile == AfterSyncs(old(localFile), servers[..i])
      {
        assert servers[..i + 1][..i] == servers[..i];
        var _ := DownloadAndAppend(servers[i]);
      }
    }
  }
}
