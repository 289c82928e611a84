/**
 Connection tokens of 07-systems-programming/src/server.rs: allocation by wrap-around
 search, and the accept and close bookkeeping of the event loop.
 */
module Tokens {
  const USIZE_MAX: nat := 0xFFFF_FFFF_FFFF_FFFF
  const FIRST_CONN: nat := 16
  const LISTENER: nat := 0
  const SIGNALS: nat := 1

  /** How many client tokens there are. */
  const CAPACITY: nat := USIZE_MAX - FIRST_CONN + 1

  predicate ClientToken(t: nat) {
    FIRST_CONN <= t <= USIZE_MAX
  }

  /** t lies strictly between `from` and `to` when counting up from `from`, wrapping to FIRST_CONN. */
  predicate Passed(from: nat, to: nat, t: nat) {
    ClientToken(t) && if from < to then from < t < to else from < t || t < to
  }

  /** The first token after `from`, in wrap-around order, that no connection holds. */
  ghost predicate IsNextFree(from: nat, used: set<nat>, n: nat) {
    ClientToken(n) && n !in used && forall t :: Passed(from, n, t) ==> t in used
  }

  // ---- pigeonhole ---------------------------------------------------------------------------

  lemma {:induction false} RangeSize(used: set<nat>, lo: nat, hi: nat)
    requires lo <= hi && forall t :: lo <= t < hi ==> t in used
    ensures |used| >= hi - lo
    decreases hi - lo
  {
    if lo < hi {
      RangeSize(used - {lo}, lo + 1, hi);
    }
  }

  /** Fewer connections than tokens leave a token free, even with one more put aside. */
  lemma SomeTokenFree(used: set<nat>, but: nat) returns (f: nat)
    requires |used| + 1 < CAPACITY
    ensures ClientToken(f) && f !in used && f != but
  {
    if forall t :: ClientToken(t) ==> t in used + {but} {
      assert |used + {but}| <= |used| + 1;
      RangeSize(used + {but}, FIRST_CONN, USIZE_MAX + 1);
    }
    f :| ClientToken(f) && f !in used + {but};
  }

  // ---- next_free_token -----------------------------------------------------------------------

  method NextFreeToken(start: nat, used: set<nat>, ghost free: nat) returns (candidate: nat)
    requires start <= USIZE_MAX && ClientToken(free) && free !in used
    ensures IsNextFree(start, used, candidate)
  {
    candidate := start;
    ghost var wrapped := false;
    while true
      invariant candidate <= USIZE_MAX
      invariant !wrapped ==> start <= candidate && forall t: nat :: ClientToken(t) && start < t <= candidate ==> t in used
      invariant wrapped ==> FIRST_CONN <= candidate < free
      invariant wrapped ==> (forall t: nat :: ClientToken(t) && start < t ==> t in used) && forall t: nat :: FIRST_CONN <= t <= candidate ==> t in used
      decreases !wrapped, USIZE_MAX - candidate
    {
      if candidate == USIZE_MAX {
        candidate := FIRST_CONN;
        wrapped := true;
      } else {
        candidate := candidate + 1;
      }
      if candidate >= FIRST_CONN && candidate !in used {
        return;
      }
    }
  }

  /** The search comes back to where it started exactly when every other token is taken. */
  lemma ReturnsToStartIff(start: nat, used: set<nat>, n: nat)
    requires ClientToken(start) && start !in used && IsNextFree(start, used, n)
    ensures n == start <==> forall t :: ClientToken(t) && t != start ==> t in used
  {
    if n == start {
      forall t | ClientToken(t) && t != start
        ensures t in used
      {
        assert Passed(start, n, t);
      }
    }
  }

  // ---- the accept and close bookkeeping of run --------------------------------------------------

  class EventLoop {
    var conns: map<nat, nat>
    var nextToken: nat
    var accepted: nat

    constructor ()
      ensures Valid() && conns == map[] && accepted == 0
    {
      conns := map[];
      nextToken := FIRST_CONN;
      accepted := 0;
    }

    /** Live tokens are client tokens, and the token to be handed out next is free. */
    ghost predicate Valid()
      reads this
    {
      && (forall t :: t in conns ==> ClientToken(t))
      && ClientToken(nextToken) && nextToken !in conns
    }

    function State(): Server
      reads this
    {
      Server(conns, nextToken, accepted)
    }

    method Accept() returns (token: nat)
      requires Valid() && |conns| + 1 < CAPACITY
      modifies this
      ensures Valid()
      ensures Accepts(old(State()), token, State())
    {
      token := nextToken;
      ghost var free := SomeTokenFree(conns.Keys, token);
      nextToken := NextFreeToken(nextToken, conns.Keys, free);
      ReturnsToStartIff(token, conns.Keys, nextToken);
      conns := conns[token := accepted];
      accepted := accepted + 1;
    }

    method Close(token: nat)
      requires Valid()
      modifies this
      ensures Valid()
      ensures Closes(old(State()), token, State())
    {
      conns := conns - {token};
    }
  }

  // ---- every run ----------------------------------------------------------------------------------

  /** conns maps each live token to the number of the connection holding it. */
  datatype Server = Server(conns: map<nat, nat>, next: nat, accepted: nat)

  datatype Event = Accept(token: nat) | Close(token: nat)

  ghost predicate Accepts(s: Server, token: nat, s': Server) {
    && token == s.next
    && s'.conns == s.conns[token := s.accepted] && s'.accepted == s.accepted + 1
    && IsNextFree(s.next, s.conns.Keys, s'.next)
  }

  ghost predicate Closes(s: Server, token: nat, s': Server) {
    s' == s.(conns := s.conns - {token})
  }

  ghost predicate Step(s: Server, e: Event, s': Server) {
    match e
    case Accept(token) => |s.conns| + 1 < CAPACITY && Accepts(s, token, s')
    case Close(token) => Closes(s, token, s')
  }

  ghost predicate IsRun(states: seq<Server>, events: seq<Event>) {
    && |states| == |events| + 1
    && states[0] == Server(map[], FIRST_CONN, 0)
    && forall i :: 0 <= i < |events| ==> Step(states[i], events[i], states[i + 1])
  }

  ghost predicate Invariant(s: Server) {
    && (forall t :: t in s.conns ==> ClientToken(t) && s.conns[t] < s.accepted)
    && (forall t, u :: t in s.conns && u in s.conns && s.conns[t] == s.conns[u] ==> t == u)
    && ClientToken(s.next) && s.next !in s.conns
  }

  lemma StepKeepsInvariant(s: Server, e: Event, s': Server)
    requires Invariant(s) && Step(s, e, s')
    ensures Invariant(s')
  {
    if e.Accept? {
      var f := SomeTokenFree(s.conns.Keys, e.token);
      ReturnsToStartIff(e.token, s.conns.Keys, s'.next);
    }
  }

  lemma {:induction false} InvariantHolds(states: seq<Server>, events: seq<Event>, i: nat)
    requires IsRun(states, events) && i <= |events|
    ensures Invariant(states[i])
    decreases i
  {
    hide Step;
    if i == 0 {
      hide Invariant;
      InitialInvariant();
    } else {
      InvariantHolds(states, events, i - 1);
      StepKeepsInvariant(states[i - 1], events[i - 1], states[i]);
    }
  }

  lemma InitialInvariant()
    ensures Invariant(Server(map[], FIRST_CONN, 0))
  {
  }

  /** Connection number c is still being served. */
  predicate Serving(s: Server, c: nat) {
    exists t :: t in s.conns && s.conns[t] == c
  }

  /** A step takes a connection out of the table only by closing its own token. */
  lemma StepSpares(s: Server, e: Event, s': Server, c: nat)
    requires Invariant(s) && Step(s, e, s') && Serving(s, c)
    ensures Serving(s', c) || (e.Close? && e.token in s.conns && s.conns[e.token] == c)
  {
    var t :| t in s.conns && s.conns[t] == c;
    assert (e.Close? && e.token == t) || (t in s'.conns && s'.conns[t] == c);
  }

  /**
   Over every run with a free token to spare at each accept: a token handed out is a client
   token held by no live connection, and a connection leaves the table only when its own
   token is closed.
   */
  lemma TokensNeverCollide(states: seq<Server>, events: seq<Event>, i: nat)
    requires IsRun(states, events) && i < |events|
    ensures events[i].Accept? ==>
              && 16 <= events[i].token <= 0xFFFF_FFFF_FFFF_FFFF
              && events[i].token != LISTENER && events[i].token != SIGNALS
              && events[i].token !in states[i].conns
    ensures forall c :: Serving(states[i], c) ==>
              || Serving(states[i + 1], c)
              || (events[i].Close? && events[i].token in states[i].conns && states[i].conns[events[i].token] == c)
  {
    hide Serving, IsNextFree;
    InvariantHolds(states, events, i);
    assert Step(states[i], events[i], states[i + 1]);
    forall c | Serving(states[i], c)
      ensures Serving(states[i + 1], c)
              || (events[i].Close? && events[i].token in states[i].conns && states[i].conns[events[i].token] == c)
    {
      StepSpares(states[i], events[i], states[i + 1], c);
    }
  }

  /** Connection number c was accepted at step j and its token not closed between then and step i. */
  ghost predicate AcceptedAt(states: seq<Server>, events: seq<Event>, j: nat, i: nat, c: nat)
    requires |states| == |events| + 1 && i <= |events|
  {
    && j < i && events[j].Accept? && states[j].accepted == c
    && forall k :: j < k < i ==> events[k] != Close(events[j].token)
  }

  /** Being open with this token: accepted with it, and the token not closed since. */
  lemma {:induction false} HeldIff(states: seq<Server>, events: seq<Event>, i: nat, t: nat, c: nat)
    requires IsRun(states, events) && i <= |events|
    ensures t in states[i].conns && states[i].conns[t] == c
            <==> exists j: nat :: AcceptedAt(states, events, j, i, c) && events[j].token == t
    decreases i
  {
    hide IsNextFree;
    if i > 0 {
      var s, e, s' := states[i - 1], events[i - 1], states[i];
      HeldIff(states, events, i - 1, t, c);
      InvariantHolds(states, events, i - 1);
      assert Step(s, e, s');
      if t in s'.conns && s'.conns[t] == c {
        if e == Accept(t) {
          assert AcceptedAt(states, events, i - 1, i, c);
        } else {
          var j: nat :| AcceptedAt(states, events, j, i - 1, c) && events[j].token == t;
          assert AcceptedAt(states, events, j, i, c);
        }
      }
      if j: nat :| AcceptedAt(states, events, j, i, c) && events[j].token == t {
        if j < i - 1 { assert AcceptedAt(states, events, j, i - 1, c); }
      }
    }
  }

  /** The number of accepts before step i. */
  function AcceptsBefore(events: seq<Event>, i: nat): set<nat>
    requires i <= |events|
  {
    set j: nat | j < i && events[j].Accept?
  }

  lemma OneMoreEvent(events: seq<Event>, i: nat)
    requires 0 < i <= |events|
    ensures |AcceptsBefore(events, i)| == |AcceptsBefore(events, i - 1)| + if events[i - 1].Accept? then 1 else 0
  {
    var before := AcceptsBefore(events, i - 1);
    assert AcceptsBefore(events, i) == if events[i - 1].Accept? then before + {i - 1} else before;
  }

  lemma StepCounts(s: Server, e: Event, s': Server)
    requires Step(s, e, s')
    ensures s'.accepted == s.accepted + if e.Accept? then 1 else 0
  {
    hide IsNextFree;
  }

  /** Accepted connections are numbered from 0 in order. */
  lemma {:induction false} AcceptedCounts(states: seq<Server>, events: seq<Event>, i: nat)
    requires IsRun(states, events) && i <= |events|
    ensures states[i].accepted == |AcceptsBefore(events, i)|
    decreases i
  {
    if i == 0 {
      assert AcceptsBefore(events, 0) == {};
    } else {
      hide AcceptsBefore, Step;
      AcceptedCounts(states, events, i - 1);
      OneMoreEvent(events, i);
      StepCounts(states[i - 1], events[i - 1], states[i]);
    }
  }
}
