// The intercept engine as the object it is: tables updated in place, channels
// and flows shared by reference. Each method is one critical section (or one
// channel operation) of the handshake, specified by the table functions that
// PauseMachine's transitions use.
module Engine {
  import opened Common
  import opened Tokens
  import opened PauseTable

  class Flow {
    var status: Status
    constructor ()
      ensures status == Active
    {
      status := Active;
    }
  }

  // A channel with room for one resolution.
  class Channel {
    var buffer: Option<Resolution>

    constructor ()
      ensures buffer == None
    {
      buffer := None;
    }

    // Sending to a full channel would block.
    method Send(res: Resolution)
      requires buffer.None?
      modifies this
      ensures buffer == Some(res)
    {
      buffer := Some(res);
    }

    // Receiving from an empty channel would block.
    method Receive() returns (res: Resolution)
      requires buffer.Some?
      modifies this
      ensures Some(res) == old(buffer) && buffer == None
    {
      res := buffer.value;
      buffer := None;
    }
  }

  class Engine {
    var nextPauseToken: Token
    var pending: map<Token, Channel>
    var pausedByFlow: map<Flow, int>

    // Every registered channel is empty and registered under one nonzero token.
    ghost predicate Valid()
      reads this, pending.Values
    {
      && (forall t :: t in pending ==> t != 0 && pending[t].buffer.None?)
      && (forall t, u :: t in pending && u in pending && pending[t] == pending[u] ==> t == u)
      && (forall f :: f in pausedByFlow ==> pausedByFlow[f] > 0)
    }

    constructor ()
      ensures Valid() && pending == map[] && pausedByFlow == map[] && nextPauseToken == 0
    {
      nextPauseToken, pending, pausedByFlow := 0, map[], map[];
    }

    // The allocation loop of pause. It ends whenever some nonzero token is free;
    // the measure is the distance round the counter to the first one.
    method AllocateToken() returns (token: Token)
      requires SomeUsable(pending.Keys)
      modifies this`nextPauseToken
      ensures IsNext(old(nextPauseToken), pending.Keys, token)
      ensures nextPauseToken == token
    {
      ghost var from := nextPauseToken;
      ghost var free: Token :| Usable(free, pending.Keys);
      ghost var steps := LeastUsable(from, pending.Keys, Distance(from, free));
      ghost var taken := 0;
      while true
        invariant 0 <= taken < steps
        invariant nextPauseToken == Ahead(from, taken)
        invariant FirstUsableAt(from, pending.Keys, steps)
        decreases steps - taken
      {
        AheadStep(from, taken);
        nextPauseToken := (nextPauseToken + 1) % WORD;
        taken := taken + 1;
        assert taken == steps || !Usable(Ahead(from, taken), pending.Keys);
        token := nextPauseToken;
        if token == 0 {
          assert !Usable(token, pending.Keys);
          continue;
        }
        if token !in pending {
          break;
        }
      }
      assert taken == steps;
    }

    // The first critical section of pause: register a new channel under a free
    // token and mark the flow.
    method Register(f: Flow) returns (token: Token, channel: Channel)
      requires Valid() && SomeUsable(pending.Keys)
      modifies this, f
      ensures Valid() && fresh(channel) && channel.buffer.None?
      ensures IsNext(old(nextPauseToken), old(pending.Keys), token)
      ensures nextPauseToken == token
      ensures pending == old(pending)[token := channel]
      ensures pausedByFlow == Incremented(old(pausedByFlow), f)
      ensures f.status == Pending
    {
      channel := new Channel();
      token := AllocateToken();
      pending := pending[token := channel];
      pausedByFlow := Incremented(pausedByFlow, f);
      f.status := Pending;
    }

    // The first half of Resolve: take the pause's channel out of the table, so
    // that no other caller can reach it. null means the token is unknown.
    method Claim(token: Token) returns (channel: Channel?)
      requires Valid()
      modifies this`pending
      ensures Valid()
      ensures pending == old(pending) - {token}
      ensures channel != null <==> token in old(pending)
      ensures token in old(pending) ==> channel == old(pending[token]) && channel !in pending.Values
    {
      if token in pending {
        channel := pending[token];
        pending := pending - {token};
      } else {
        channel := null;
      }
    }

    // Resolve, run without interruption: it succeeds exactly on a held token,
    // and then that token's channel, and no other, receives the resolution.
    method Resolve(token: Token, res: Resolution) returns (ok: bool)
      requires Valid()
      modifies this`pending, if token in pending then {pending[token]} else {}
      ensures Valid()
      ensures ok <==> token in old(pending)
      ensures pending == old(pending) - {token}
      ensures ok ==> old(pending[token]).buffer == Some(res)
    {
      var channel := Claim(token);
      if channel == null {
        return false;
      }
      channel.Send(res);
      return true;
    }

    // The last stretch of pause once the channel has been answered: receive, run
    // the deferred cleanup, and report the verdict to the protocol handler.
    method Finish(token: Token, channel: Channel, f: Flow) returns (outcome: Outcome)
      requires Valid() && channel.buffer.Some? && CountOf(pausedByFlow, f) > 0
      modifies this, channel, f
      ensures Valid()
      ensures outcome == if old(channel.buffer).value.drop then Dropped else Forwarded(old(channel.buffer).value.edited)
      ensures pending == WithoutOwn(old(pending), token, channel)
      ensures pausedByFlow == Decremented(old(pausedByFlow), f)
      ensures f.status == if old(CountOf(pausedByFlow, f)) == 1 then Active else old(f.status)
    {
      var res := channel.Receive();
      CleanUp(token, channel, f);
      outcome := if res.drop then Dropped else Forwarded(res.edited);
    }

    // The deferred cleanup on its own, as a panicking callback reaches it: its
    // channel may still be registered, or its token may belong to a later pause.
    method CleanUp(token: Token, channel: Channel, f: Flow)
      requires Valid() && CountOf(pausedByFlow, f) > 0
      modifies this, f
      ensures Valid()
      ensures pending == WithoutOwn(old(pending), token, channel)
      ensures pausedByFlow == Decremented(old(pausedByFlow), f)
      ensures f.status == if old(CountOf(pausedByFlow, f)) == 1 then Active else old(f.status)
    {
      if token in pending && pending[token] == channel {
        pending := pending - {token};
      }
      var remaining := CountOf(pausedByFlow, f) - 1;
      if remaining == 0 {
        pausedByFlow := pausedByFlow - {f};
        f.status := Active;
      } else {
        pausedByFlow := pausedByFlow[f := remaining];
      }
    }
  }
}
