/** The connected browsers: each has received a snapshot and everything broadcast since. */
module Browsers {
  import opened Messages

  type BrowserId = nat

  class Hub {
    var browsers: map<BrowserId, seq<ServerMsg>>
    ghost var log: seq<ServerMsg>
    ghost var joined: map<BrowserId, (ServerMsg, nat)>

    /** Everything a browser has received: what it was sent on joining, then the log from there on. */
    ghost predicate Valid()
      reads this
    {
      joined.Keys == browsers.Keys &&
      forall b :: b in browsers ==> joined[b].1 <= |log| && browsers[b] == [joined[b].0] + log[joined[b].1..]
    }

    constructor ()
      ensures Valid() && log == [] && browsers == map[]
    {
      browsers, log, joined := map[], [], map[];
    }

    /** registerBrowser, and the snapshot HandleBrowserWS sends first. */
    method Join(b: BrowserId, snapshot: ServerMsg)
      requires Valid() && b !in browsers
      modifies this
      ensures Valid() && log == old(log) && browsers == old(browsers)[b := [snapshot]]
    {
      browsers := browsers[b := [snapshot]];
      joined := joined[b := (snapshot, |log|)];
    }

    /** unregisterBrowser. */
    method Leave(b: BrowserId)
      requires Valid()
      modifies this
      ensures Valid() && log == old(log) && browsers == old(browsers) - {b}
    {
      browsers := browsers - {b};
      joined := joined - {b};
    }

    /** broadcast: one message to each connection. */
    method Broadcast(msg: ServerMsg)
      requires Valid()
      modifies this
      ensures Valid() && log == old(log) + [msg] && browsers.Keys == old(browsers).Keys
    {
      SendToAll(msg);
      log := log + [msg];
      forall b | b in browsers ensures log[joined[b].1..] == old(log)[joined[b].1..] + [msg] {
      }
    }

    /** The connections are served in any order. */
    method SendToAll(msg: ServerMsg)
      modifies this`browsers
      ensures browsers.Keys == old(browsers).Keys
      ensures forall b :: b in browsers ==> browsers[b] == old(browsers)[b] + [msg]
    {
      var rest := browsers.Keys;
      while rest != {}
        invariant rest <= browsers.Keys == old(browsers).Keys
        invariant forall b :: b in browsers ==>
          browsers[b] == if b in rest then old(browsers)[b] else old(browsers)[b] + [msg]
        decreases |rest|
      {
        var b :| b in rest;
        browsers := browsers[b := browsers[b] + [msg]];
        rest := rest - {b};
      }
    }
  }
}
