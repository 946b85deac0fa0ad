/** The connection state machine of `Connection` (connection.py).

    One object per remote peer holds the state, the retry counter and the
    time of the last activity; the methods below update them in place.
    The wall clock is the parameter `now`, an integer count of
    milliseconds, so the source's 1.0 s retry timeout is 1000 and its 300 s
    idle timeout is 300000. Nicknames are the raw bytes of the UTF-8 text. */
module Connections {
  import opened Base
  import opened FrameCodec

  datatype ConnectionState = Disconnected | Connecting | Connected | Disconnecting

  /** `connect`/`disconnect` called in the wrong state (a `ValueError`). */
  datatype ConnectionError = WrongState

  const MaxRetries := 3
  const RetryTimeout := 1000
  const IdleTimeout := 300000

  class Connection {
    const localAddr: int
    const remoteAddr: int
    const localNick: seq<byte>
    var remoteNick: seq<byte>
    var state: ConnectionState
    var lastActivity: Option<int>
    var retryCount: int

    /** The retry counter never leaves 0..MaxRetries. */
    ghost predicate Valid()
      reads this
    {
      0 <= retryCount <= MaxRetries
    }

    /** `__init__`, with both nicknames given (the source's default, the
        address printed in hex, is left to the caller). */
    constructor (localAddr: int, remoteAddr: int, localNick: seq<byte>, remoteNick: seq<byte>)
      ensures Valid()
      ensures this.localAddr == localAddr && this.remoteAddr == remoteAddr
      ensures this.localNick == localNick && this.remoteNick == remoteNick
      ensures state == Disconnected && lastActivity == None && retryCount == 0
    {
      this.localAddr := localAddr;
      this.remoteAddr := remoteAddr;
      this.localNick := localNick;
      this.remoteNick := remoteNick;
      state := Disconnected;
      lastActivity := None;
      retryCount := 0;
    }

    /** `create_frame`: addressed to the peer, from us; a LINK frame always
        carries our nickname instead of `data`. */
    function CreateFrame(frameType: int, data: seq<byte>): (f: Frame)
      ensures f.receiver == remoteAddr && f.sender == localAddr && f.frameType == frameType
      ensures frameType == TypeLink ==> f.data == localNick
      ensures frameType != TypeLink ==> f.data == data
    {
      Frame(remoteAddr, localAddr, frameType, if frameType == TypeLink then localNick else data)
    }

    /** The only frames `handle_frame` looks at. */
    predicate IsForThisConnection(frame: Frame)
    {
      frame.sender == remoteAddr && frame.receiver == localAddr
    }

    /** `handle_frame`. */
    method HandleFrame(frame: Frame, now: int) returns (reply: Option<Frame>)
      requires Valid()
      modifies this
      ensures Valid()
      // a frame from another peer or for another node changes nothing at all
      ensures !IsForThisConnection(frame) ==> reply == None && unchanged(this)
      ensures IsForThisConnection(frame) ==> lastActivity == Some(now)
      ensures retryCount == old(retryCount)
      // LINK is accepted in every state
      ensures IsForThisConnection(frame) && frame.frameType == TypeLink ==>
        state == Connected && remoteNick == frame.data
        && reply == Some(Frame(remoteAddr, localAddr, TypeAck, localNick))
      ensures IsForThisConnection(frame) && frame.frameType == TypeUplink ==>
        state == Disconnected && remoteNick == old(remoteNick)
        && reply == Some(Frame(remoteAddr, localAddr, TypeAck, []))
      ensures IsForThisConnection(frame) && frame.frameType == TypeAck ==>
        reply == None
        && state == (match old(state)
                     case Connecting => Connected
                     case Disconnecting => Disconnected
                     case other => other)
        && remoteNick == (if old(state) == Connecting then frame.data else old(remoteNick))
      ensures IsForThisConnection(frame) && frame.frameType == TypeI ==>
        state == old(state) && remoteNick == old(remoteNick)
        && reply == (if old(state) == Connected then Some(Frame(remoteAddr, localAddr, TypeAck, [])) else None)
      ensures IsForThisConnection(frame)
              && frame.frameType !in {TypeLink, TypeUplink, TypeAck, TypeI} ==>
        state == old(state) && remoteNick == old(remoteNick) && reply == None
    {
      if frame.sender != remoteAddr || frame.receiver != localAddr {
        return None;
      }
      lastActivity := Some(now);
      if frame.frameType == TypeLink {
        remoteNick := frame.data;
        state := Connected;
        return Some(Frame(remoteAddr, localAddr, TypeAck, localNick));
      } else if frame.frameType == TypeUplink {
        state := Disconnected;
        return Some(CreateFrame(TypeAck, []));
      } else if frame.frameType == TypeAck {
        if state == Connecting {
          remoteNick := frame.data;
          state := Connected;
        } else if state == Disconnecting {
          state := Disconnected;
        }
      } else if frame.frameType == TypeI && state == Connected {
        return Some(CreateFrame(TypeAck, []));
      }
      return None;
    }

    /** `connect`. */
    method Connect(now: int) returns (r: Result<Frame, ConnectionError>)
      requires Valid()
      modifies this
      ensures Valid()
      ensures old(state) != Disconnected ==> r == Err(WrongState) && unchanged(this)
      ensures old(state) == Disconnected ==>
        r == Ok(Frame(remoteAddr, localAddr, TypeLink, localNick))
        && state == Connecting && lastActivity == Some(now) && retryCount == 0
        && remoteNick == old(remoteNick)
    {
      if state != Disconnected {
        return Err(WrongState);
      }
      state := Connecting;
      lastActivity := Some(now);
      retryCount := 0;
      return Ok(CreateFrame(TypeLink, []));
    }

    /** `disconnect`. */
    method Disconnect(now: int) returns (r: Result<Frame, ConnectionError>)
      requires Valid()
      modifies this
      ensures Valid()
      ensures old(state) != Connected ==> r == Err(WrongState) && unchanged(this)
      ensures old(state) == Connected ==>
        r == Ok(Frame(remoteAddr, localAddr, TypeUplink, []))
        && state == Disconnecting && lastActivity == Some(now) && retryCount == 0
        && remoteNick == old(remoteNick)
    {
      if state != Connected {
        return Err(WrongState);
      }
      state := Disconnecting;
      lastActivity := Some(now);
      retryCount := 0;
      return Ok(CreateFrame(TypeUplink, []));
    }

    /** More than the retry timeout has passed since the last activity. */
    predicate RetryDue(now: int)
      reads this
    {
      lastActivity.Some? && now - lastActivity.value > RetryTimeout
    }

    /** `check_timeout`: runs in every state, not only while a request is
        pending. */
    method CheckTimeout(now: int) returns (r: Option<Frame>)
      requires Valid()
      modifies this
      ensures Valid()
      ensures remoteNick == old(remoteNick)
      ensures !old(RetryDue(now)) ==> r == None && unchanged(this)
      // retries exhausted: give up, counter and timestamp stay as they were
      ensures old(RetryDue(now)) && old(retryCount) >= MaxRetries ==>
        r == None && state == Disconnected
        && retryCount == old(retryCount) && lastActivity == old(lastActivity)
      ensures old(RetryDue(now)) && old(retryCount) < MaxRetries ==>
        retryCount == old(retryCount) + 1 && lastActivity == Some(now) && state == old(state)
        && r == (match state
                 case Connecting => Some(Frame(remoteAddr, localAddr, TypeLink, localNick))
                 case Disconnecting => Some(Frame(remoteAddr, localAddr, TypeUplink, []))
                 case _ => None)
    {
      if lastActivity.None? {
        return None;
      }
      if now - lastActivity.value > RetryTimeout {
        if retryCount >= MaxRetries {
          state := Disconnected;
          return None;
        }
        retryCount := retryCount + 1;
        lastActivity := Some(now);
        if state == Connecting {
          return Some(CreateFrame(TypeLink, []));
        } else if state == Disconnecting {
          return Some(CreateFrame(TypeUplink, []));
        }
      }
      return None;
    }

    /** `is_connection_timeout`: idle for more than 300 s while connected. */
    function IsConnectionTimeout(now: int): (r: bool)
      reads this
      ensures r <==> state == Connected && lastActivity.Some? && now - lastActivity.value > IdleTimeout
    {
      if lastActivity.None? || state != Connected then false
      else now - lastActivity.value > IdleTimeout
    }

    /** `is_connected`. */
    function IsConnected(): (r: bool)
      reads this
      ensures r <==> state == Connected
    {
      state == Connected
    }
  }

  /** Node A (0x10) connects to node B (0x01): A's LINK makes B connected
      and answer with an ACK, which makes A connected; each side learns the
      other's nickname. */
  method HandshakeScenario(nickA: seq<byte>, nickB: seq<byte>, now: int)
    returns (a: Connection, b: Connection)
    ensures a.state == Connected && b.state == Connected
    ensures a.remoteNick == nickB && b.remoteNick == nickA
  {
    a := new Connection(0x10, 0x01, nickA, []);
    b := new Connection(0x01, 0x10, nickB, []);
    var link := a.Connect(now);
    assert link == Ok(Frame(0x01, 0x10, TypeLink, nickA));
    var ack := b.HandleFrame(link.value, now);
    assert ack == Some(Frame(0x10, 0x01, TypeAck, nickB));
    var none := a.HandleFrame(ack.value, now);
  }

  /** Whatever its state and counter, a connection that sees no frame gives
      up after at most MaxRetries + 1 expired timeout checks. Only `connect`
      and `disconnect` reset the counter, so a connection established after
      LINK retries, or by an inbound LINK after an earlier give-up, has
      fewer checks left; an established connection is dropped this way long
      before the idle timeout. */
  method TimeoutsEndInDisconnected(c: Connection, nows: seq<int>)
    requires c.Valid() && c.lastActivity.Some?
    requires |nows| == MaxRetries + 1
    requires nows[0] - c.lastActivity.value > RetryTimeout
    requires forall i :: 0 < i < |nows| ==> nows[i] - nows[i - 1] > RetryTimeout
    modifies c
    ensures c.Valid() && c.state == Disconnected
  {
    var i := 0;
    while i < |nows|
      invariant 0 <= i <= |nows|
      invariant c.Valid() && c.lastActivity.Some?
      invariant i > 0 ==> c.lastActivity.value <= nows[i - 1]
      invariant i == 0 ==> c.lastActivity == old(c.lastActivity)
      invariant (c.state == Disconnected && c.retryCount == MaxRetries) || c.retryCount >= i
    {
      var r := c.CheckTimeout(nows[i]);
      i := i + 1;
    }
  }

  /** Only `connect` and `disconnect` reset the retry counter: a connection
      that gave up after MaxRetries repetitions of its LINK and is then
      connected by the peer's LINK has no retries left, and drops at the
      first expired timeout check. */
  method SpentRetriesSurviveInboundLink(nick: seq<byte>, t: int) returns (c: Connection)
    ensures c.state == Disconnected && c.retryCount == MaxRetries
  {
    c := new Connection(0x01, 0x10, nick, []);
    var link := c.Connect(t);
    var r1 := c.CheckTimeout(t + 1001);
    var r2 := c.CheckTimeout(t + 2002);
    var r3 := c.CheckTimeout(t + 3003);
    var r4 := c.CheckTimeout(t + 4004);
    assert c.state == Disconnected && c.retryCount == MaxRetries;
    var ack := c.HandleFrame(Frame(0x01, 0x10, TypeLink, []), t + 4005);
    assert c.state == Connected && c.retryCount == MaxRetries;
    var r5 := c.CheckTimeout(t + 5006);
  }
}
