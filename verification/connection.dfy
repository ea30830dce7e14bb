/**
 * The per-connection flag state machine of a peer connection: what one decoded
 * message does to the local flag list (`my_state`) and to the record of the
 * remote's interest (`peer_state`), and whether `request_chunk` is called
 * afterwards. Both are Python lists, so a flag can occur more than once:
 * each Choke appends another 'choked' and each Unchoke removes only one.
 * The socket, the handshake and the piece manager are outside this function:
 * what the manager is asked to do is returned as an `Effect`, and whether
 * request_chunk is called is the `requested` bit. request_chunk asks the piece
 * manager's next_request for a block and writes a Request only when it gets
 * one; the 'pending_request' flag is set either way.
 */
module Connection {
  import opened Common
  import opened Wire

  datatype Flag = Choked | Interested | PendingRequest | Stopped

  datatype ConnState = ConnState(mine: seq<Flag>, theirs: seq<Flag>)

  /** The call into the piece manager (or the block callback) a message causes. */
  datatype Effect =
    | NoEffect
    | AddPeer(bitfield: seq<bool>)
    | UpdatePeer(index: nat)
    | BlockReceived(index: nat, begin: nat, block: seq<byte>)

  /**
   * One turn of the message loop: carry on with a new state, leave the loop
   * because the connection was stopped, or fail with the ValueError that
   * list.remove raises for a Piece nobody asked for.
   */
  datatype Step = Continue(state: ConnState, effect: Effect, requested: bool) | Break | Failed

  function Count(s: seq<Flag>, f: Flag): nat
  {
    if s == [] then 0 else (if s[0] == f then 1 else 0) + Count(s[1..], f)
  }

  lemma {:induction false} CountAppend(s: seq<Flag>, g: Flag, f: Flag)
    ensures Count(s + [g], f) == Count(s, f) + (if g == f then 1 else 0)
  {
    if s == [] {
      assert [] + [g] == [g];
      assert [g][1..] == [];
    } else {
      assert (s + [g])[1..] == s[1..] + [g];
      CountAppend(s[1..], g, f);
    }
  }

  lemma {:induction false} CountPositive(s: seq<Flag>, f: Flag)
    ensures f in s <==> Count(s, f) > 0
  {
    if s != [] {
      CountPositive(s[1..], f);
      assert f in s <==> s[0] == f || f in s[1..];
    }
  }

  /** list.remove(f): drop the first occurrence of f; only called when f is present. */
  function RemoveFirst(s: seq<Flag>, f: Flag): (r: seq<Flag>)
    requires f in s
    ensures Count(r, f) == Count(s, f) - 1
    ensures forall g :: g != f ==> Count(r, g) == Count(s, g)
  {
    if s[0] == f then s[1..]
    else
      var r := [s[0]] + RemoveFirst(s[1..], f);
      assert r[1..] == RemoveFirst(s[1..], f);
      r
  }

  /** After the handshake: 'choked' is appended, Interested is sent, 'interested' is appended. */
  function Negotiate(s: ConnState): ConnState
  {
    s.(mine := s.mine + [Choked, Flag.Interested])
  }

  /** stop() appends 'stopped'; the message loop then breaks before the next message. */
  function Stop(s: ConnState): ConnState
  {
    s.(mine := s.mine + [Stopped])
  }

  /** Local state {unchoked, interested} with no 'pending_request' flag. */
  predicate Ready(s: ConnState)
  {
    Choked !in s.mine && Flag.Interested in s.mine && PendingRequest !in s.mine
  }

  /** The dispatch on the message type, before the request check. */
  function Dispatch(s: ConnState, m: Message): Step
  {
    match m
    case BitField(bits) => Continue(s, AddPeer(bits), false)
    case Interested => Continue(s.(theirs := s.theirs + [Flag.Interested]), NoEffect, false)
    case NotInterested =>
      if Flag.Interested in s.theirs then Continue(s.(theirs := RemoveFirst(s.theirs, Flag.Interested)), NoEffect, false)
      else Continue(s, NoEffect, false)
    case Choke => Continue(s.(mine := s.mine + [Choked]), NoEffect, false)
    case Unchoke =>
      if Choked in s.mine then Continue(s.(mine := RemoveFirst(s.mine, Choked)), NoEffect, false)
      else Continue(s, NoEffect, false)
    case Have(index) => Continue(s, UpdatePeer(index), false)
    case KeepAlive => Continue(s, NoEffect, false)
    case Piece(index, begin, block) =>
      if PendingRequest in s.mine then
        Continue(s.(mine := RemoveFirst(s.mine, PendingRequest)), BlockReceived(index, begin, block), false)
      else Failed
    case Request(_, _, _) => Continue(s, NoEffect, false)
    case Cancel(_, _, _) => Continue(s, NoEffect, false)
  }

  /** One turn of the loop: the stop check, the dispatch, then at most one call of request_chunk. */
  function Handle(s: ConnState, m: Message): Step
  {
    if Stopped in s.mine then Break
    else
      match Dispatch(s, m)
      case Continue(s1, e, _) =>
        if Ready(s1) then Continue(s1.(mine := s1.mine + [PendingRequest]), e, true)
        else Continue(s1, e, false)
      case other => other
  }

  // ---------------------------------------------------------------- properties

  /**
   * The flag is set and request_chunk called exactly when, after the message
   * was handled, the local side is unchoked, interested and has nothing
   * outstanding; exactly one 'pending_request' is left behind.
   */
  lemma RequestOnlyWhenReady(s: ConnState, m: Message)
    requires Handle(s, m).Continue?
    ensures Dispatch(s, m).Continue?
    ensures Handle(s, m).requested <==> Ready(Dispatch(s, m).state)
    ensures Handle(s, m).requested ==>
      var after := Handle(s, m).state;
      Choked !in after.mine && Flag.Interested in after.mine && Count(after.mine, PendingRequest) == 1
  {
    var s1 := Dispatch(s, m).state;
    if Ready(s1) {
      CountPositive(s1.mine, PendingRequest);
      CountAppend(s1.mine, PendingRequest, PendingRequest);
    }
  }

  /** A Piece message takes one 'pending_request' away; one that was never asked for fails. */
  lemma PieceClearsPending(s: ConnState, index: u32, begin: u32, block: seq<byte>)
    requires Stopped !in s.mine
    ensures PendingRequest !in s.mine ==> Handle(s, Piece(index, begin, block)) == Failed
    ensures PendingRequest in s.mine ==>
      Dispatch(s, Piece(index, begin, block)).Continue? &&
      Count(Dispatch(s, Piece(index, begin, block)).state.mine, PendingRequest) == Count(s.mine, PendingRequest) - 1 &&
      Dispatch(s, Piece(index, begin, block)).effect == BlockReceived(index, begin, block)
  {
  }

  /** Pipeline depth one: no turn of the loop ever leaves two 'pending_request' flags. */
  lemma {:induction false} AtMostOneInFlight(s: ConnState, m: Message)
    requires Count(s.mine, PendingRequest) <= 1
    requires Handle(s, m).Continue?
    ensures Count(Handle(s, m).state.mine, PendingRequest) <= 1
  {
    var s1 := Dispatch(s, m).state;
    match m
    case Choke => CountAppend(s.mine, Choked, PendingRequest);
    case _ =>
    if Ready(s1) {
      CountPositive(s1.mine, PendingRequest);
      CountAppend(s1.mine, PendingRequest, PendingRequest);
    }
  }

  /**
   * While 'pending_request' is set, only a Piece takes it away: every other
   * message keeps it and calls no request_chunk. So when request_chunk got no
   * block from next_request and wrote nothing, no Piece arrives and the
   * connection asks for nothing more.
   */
  lemma PendingFlagBlocksRequests(s: ConnState, m: Message)
    requires PendingRequest in s.mine && !m.Piece?
    requires Handle(s, m).Continue?
    ensures PendingRequest in Handle(s, m).state.mine
    ensures !Handle(s, m).requested
  {
    if m == Unchoke && Choked in s.mine {
      CountPositive(s.mine, PendingRequest);
      CountPositive(RemoveFirst(s.mine, Choked), PendingRequest);
    }
  }

  /** A connection that is stopped handles no further message. */
  lemma StoppedBreaks(s: ConnState, m: Message)
    ensures Handle(Stop(s), m) == Break
  {
    assert Stop(s).mine[|s.mine|] == Stopped;
  }

  /** Right after negotiation the connection is choked: nothing is requested until an Unchoke. */
  lemma NoRequestUntilUnchoke(m: Message)
    requires m != Unchoke
    ensures Handle(Negotiate(ConnState([], [])), m).Continue? ==> !Handle(Negotiate(ConnState([], [])), m).requested
  {
    var s := Negotiate(ConnState([], []));
    assert s.mine == [Choked, Flag.Interested];
  }

  /** The Unchoke that follows negotiation sets the flag and calls request_chunk for the first time. */
  lemma UnchokeStartsRequesting()
    ensures Handle(Negotiate(ConnState([], [])), Unchoke)
         == Continue(ConnState([Flag.Interested, PendingRequest], []), NoEffect, true)
  {
    var s := Negotiate(ConnState([], []));
    assert s.mine == [Choked, Flag.Interested];
    assert RemoveFirst(s.mine, Choked) == [Flag.Interested];
  }

  /** Two Chokes need two Unchokes: one Unchoke removes only one 'choked'. */
  lemma TwoChokesNeedTwoUnchokes()
    ensures var s := ConnState([Choked, Flag.Interested, Choked], []);
      Handle(s, Unchoke) == Continue(ConnState([Flag.Interested, Choked], []), NoEffect, false)
  {
    var mine := [Choked, Flag.Interested, Choked];
    assert RemoveFirst(mine, Choked) == [Flag.Interested, Choked];
  }

  // ---------------------------------------------------------------- whole sessions

  datatype Ending = Open | Stopping | Raised

  /** The loop over a sequence of messages: final state, calls of request_chunk, blocks delivered. */
  datatype Session = Session(state: ConnState, requests: nat, deliveries: nat, ending: Ending)

  function Run(s: ConnState, msgs: seq<Message>): Session
    decreases |msgs|
  {
    if msgs == [] then Session(s, 0, 0, Open)
    else
      match Handle(s, msgs[0])
      case Break => Session(s, 0, 0, Stopping)
      case Failed => Session(s, 0, 0, Raised)
      case Continue(s1, e, req) =>
        var rest := Run(s1, msgs[1..]);
        rest.(requests := rest.requests + (if req then 1 else 0),
              deliveries := rest.deliveries + (if e.BlockReceived? then 1 else 0))
  }

  /**
   * Every call of `request_chunk` is matched by at most one delivered block and
   * vice versa: calls made plus the flags present at the start equal blocks
   * delivered plus the flags left at the end. With at most one flag, a session
   * never has more than one call of `request_chunk` awaiting its block.
   */
  lemma {:induction false} SessionAccounting(s: ConnState, msgs: seq<Message>)
    requires Count(s.mine, PendingRequest) <= 1
    ensures var r := Run(s, msgs);
      && r.requests + Count(s.mine, PendingRequest) == r.deliveries + Count(r.state.mine, PendingRequest)
      && Count(r.state.mine, PendingRequest) <= 1
      && r.requests <= r.deliveries + 1
    decreases |msgs|
  {
    if msgs != [] {
      var m := msgs[0];
      match Handle(s, m)
      case Break =>
      case Failed =>
      case Continue(s1, e, req) =>
        AtMostOneInFlight(s, m);
        HandleBalance(s, m);
        SessionAccounting(s1, msgs[1..]);
    }
  }

  /** One turn: flags gained by a call of request_chunk minus flags lost to a delivered block. */
  lemma HandleBalance(s: ConnState, m: Message)
    requires Handle(s, m).Continue?
    ensures var st := Handle(s, m);
      Count(st.state.mine, PendingRequest) + (if st.effect.BlockReceived? then 1 else 0)
      == Count(s.mine, PendingRequest) + (if st.requested then 1 else 0)
  {
    var s1 := Dispatch(s, m).state;
    match m
    case Choke => CountAppend(s.mine, Choked, PendingRequest);
    case _ =>
    if Ready(s1) {
      CountAppend(s1.mine, PendingRequest, PendingRequest);
    }
  }
}
