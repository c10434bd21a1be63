/** The token bucket: a buffered channel that ticks refill, that Get drains, and that Stop closes and empties. */
module RateLimit {

  // --- the interleaved protocol ---

  /** The atomic steps of all goroutines: a delivered tick, a Get, and the parts of Stop. */
  datatype Event = Tick | Get | StopTicker | Close | Drain

  /** The channel, or the state after a send on or a close of a closed channel. */
  datatype State = Alive(size: nat, tokens: nat, closed: bool) | Panicked

  ghost predicate Bounded(s: State) {
    s.Alive? ==> s.tokens <= s.size
  }

  function Step(s: State, e: Event): State {
    if s.Panicked? then s else
      match e
      case Tick => if s.closed then Panicked else if s.tokens < s.size then s.(tokens := s.tokens + 1) else s
      case Get => if s.tokens > 0 then s.(tokens := s.tokens - 1) else s
      case StopTicker => s
      case Close => if s.closed then Panicked else s.(closed := true)
      case Drain => if s.tokens > 0 then s.(tokens := s.tokens - 1) else s
  }

  function Run(s: State, es: seq<Event>): State
    decreases es
  {
    if es == [] then s else Run(Step(s, es[0]), es[1..])
  }

  /** A Get is granted when it receives a token. */
  predicate Takes(s: State, e: Event, kind: Event) {
    e == kind && s.Alive? && s.tokens > 0
  }

  /** How many steps of kind `kind` (Get or Drain) receive a token. */
  function Taken(s: State, es: seq<Event>, kind: Event): nat
    decreases es
  {
    if es == [] then 0 else (if Takes(s, es[0], kind) then 1 else 0) + Taken(Step(s, es[0]), es[1..], kind)
  }

  predicate Refills(s: State, e: Event) {
    e == Tick && s.Alive? && !s.closed && s.tokens < s.size
  }

  function Refilled(s: State, es: seq<Event>): nat
    decreases es
  {
    if es == [] then 0 else (if Refills(s, es[0]) then 1 else 0) + Refilled(Step(s, es[0]), es[1..])
  }

  function CountOf(es: seq<Event>, e: Event): nat {
    if es == [] then 0 else (if es[0] == e then 1 else 0) + CountOf(es[1..], e)
  }

  /** Tokens stay within the channel, and none appears or vanishes unaccounted for. */
  lemma {:induction false} TokensConserved(s: State, es: seq<Event>)
    requires Bounded(s)
    ensures Bounded(Run(s, es))
    ensures Run(s, es).Alive? ==> s.Alive? && Run(s, es).size == s.size
    ensures Run(s, es).Alive? ==>
      s.tokens + Refilled(s, es) == Run(s, es).tokens + Taken(s, es, Get) + Taken(s, es, Drain)
    decreases es
  {
    if es != [] { TokensConserved(Step(s, es[0]), es[1..]); }
  }

  /** Within any stretch of a run at most as many requests are admitted as tokens were there at its start and ticks
      came in it. */
  lemma {:induction false} AdmittedFrom(s: State, es: seq<Event>)
    requires s.Alive? && Bounded(s)
    ensures Taken(s, es, Get) <= s.tokens + CountOf(es, Tick)
    decreases es
  {
    if es != [] {
      var next := Step(s, es[0]);
      if next.Alive? {
        AdmittedFrom(next, es[1..]);
      } else {
        NothingAfterPanic(es[1..], Get);
      }
    }
  }

  lemma {:induction false} NothingAfterPanic(es: seq<Event>, kind: Event)
    ensures Taken(Panicked, es, kind) == 0 && Run(Panicked, es) == Panicked
  {
    if es != [] { NothingAfterPanic(es[1..], kind); }
  }

  /** The rate bound: any window of any run admits at most the channel size plus the ticks in the window. */
  lemma RateBound(s: State, before: seq<Event>, window: seq<Event>)
    requires s.Alive? && Bounded(s)
    ensures Taken(Run(s, before), window, Get) <= s.size + CountOf(window, Tick)
  {
    TokensConserved(s, before);
    if Run(s, before).Alive? {
      AdmittedFrom(Run(s, before), window);
    } else {
      NothingAfterPanic(window, Get);
    }
  }

  /** Each tick adds a token until the channel is full. */
  lemma {:induction false} TicksFill(s: State, es: seq<Event>)
    requires s.Alive? && !s.closed && Bounded(s) && forall e :: e in es ==> e == Tick
    ensures Run(s, es) == s.(tokens := if s.tokens + |es| < s.size then s.tokens + |es| else s.size)
    decreases es
  {
    if es != [] {
      assert es[0] in es && forall e :: e in es[1..] ==> e in es;
      TicksFill(Step(s, es[0]), es[1..]);
    }
  }

  /** Requests in a row are admitted as long as there are tokens, and each takes one, whether the channel is closed or not. */
  lemma {:induction false} GetsDrain(s: State, es: seq<Event>)
    requires s.Alive? && forall e :: e in es ==> e == Get
    ensures Taken(s, es, Get) == if |es| < s.tokens then |es| else s.tokens
    ensures Run(s, es) == s.(tokens := s.tokens - Taken(s, es, Get))
    decreases es
  {
    if es != [] {
      assert es[0] in es && forall e :: e in es[1..] ==> e in es;
      GetsDrain(Step(s, es[0]), es[1..]);
    }
  }

  /** Once closed and empty, no Get is ever granted again, whatever else happens. */
  lemma {:induction false} StoppedStaysEmpty(s: State, es: seq<Event>)
    requires s.Alive? && s.closed && s.tokens == 0
    ensures Taken(s, es, Get) == 0
    decreases es
  {
    if es != [] {
      if Step(s, es[0]).Alive? {
        StoppedStaysEmpty(Step(s, es[0]), es[1..]);
      } else {
        NothingAfterPanic(es[1..], Get);
      }
    }
  }

  /** After the close the drain loop ends: no interleaving leaves tokens after more drain steps than tokens. */
  lemma {:induction false} DrainEnds(s: State, es: seq<Event>)
    requires s.Alive? && s.closed && CountOf(es, Drain) >= s.tokens && CountOf(es, Tick) == CountOf(es, Close) == 0
    ensures Run(s, es).Alive? && Run(s, es).closed && Run(s, es).tokens == 0
    decreases es
  {
    if es != [] {
      DrainEnds(Step(s, es[0]), es[1..]);
    }
  }

  /** A stop in the middle of any traffic: close, at least as many drain steps as tokens, no later tick. */
  lemma StopIsFinal(s: State, before: seq<Event>, during: seq<Event>, after: seq<Event>)
    requires s.Alive? && !s.closed && CountOf(before, Close) == 0
    requires CountOf(during, Tick) == CountOf(during, Close) == 0
    requires Run(s, before).Alive? ==> CountOf(during, Drain) >= Run(s, before).tokens
    ensures var stopped := Run(Step(Run(s, before), Close), during);
      stopped.Alive? && stopped.tokens == 0 && Taken(stopped, after, Get) == 0
  {
    OpenUntilClose(s, before);
    var closed := Step(Run(s, before), Close);
    DrainEnds(closed, during);
    StoppedStaysEmpty(Run(closed, during), after);
  }

  lemma {:induction false} OpenUntilClose(s: State, es: seq<Event>)
    requires s.Alive? && !s.closed && CountOf(es, Close) == 0
    ensures Run(s, es).Alive? && !Run(s, es).closed
    decreases es
  {
    if es != [] { OpenUntilClose(Step(s, es[0]), es[1..]); }
  }

  /** A tick or a second close is delivered after a close. */
  ghost predicate LateStep(es: seq<Event>) {
    exists i, j :: 0 <= i < j < |es| && es[i] == Close && (es[j] == Tick || es[j] == Close)
  }

  /** A run panics exactly when a tick or another close comes after the close: stopping the ticker does not recall
      a tick that is already in its channel. */
  lemma {:induction false} PanicsExactly(s: State, es: seq<Event>)
    requires s.Alive? && !s.closed
    ensures Run(s, es).Panicked? <==> LateStep(es)
    decreases es
  {
    if es != [] {
      var rest := es[1..];
      if es[0] == Close {
        PanicsWhenClosed(Step(s, Close), rest);
        if j :| 0 <= j < |rest| && (rest[j] == Tick || rest[j] == Close) {
          assert es[j + 1] == rest[j];
        }
        if i, j :| 0 <= i < j < |es| && es[i] == Close && (es[j] == Tick || es[j] == Close) {
          assert rest[j - 1] == es[j];
        }
      } else {
        PanicsExactly(Step(s, es[0]), rest);
        if i, j :| 0 <= i < j < |rest| && rest[i] == Close && (rest[j] == Tick || rest[j] == Close) {
          assert es[i + 1] == Close && es[j + 1] == rest[j];
        }
        if i, j :| 0 <= i < j < |es| && es[i] == Close && (es[j] == Tick || es[j] == Close) {
          assert rest[i - 1] == Close && rest[j - 1] == es[j];
        }
      }
    }
  }

  lemma {:induction false} PanicsWhenClosed(s: State, es: seq<Event>)
    requires s.Alive? && s.closed
    ensures Run(s, es).Panicked? <==> exists j :: 0 <= j < |es| && (es[j] == Tick || es[j] == Close)
    decreases es
  {
    if es != [] {
      var rest := es[1..];
      if es[0] == Tick || es[0] == Close {
        NothingAfterPanic(rest, Get);
      } else {
        PanicsWhenClosed(Step(s, es[0]), rest);
        if j :| 0 <= j < |rest| && (rest[j] == Tick || rest[j] == Close) {
          assert es[j + 1] == rest[j];
        }
        if j :| 0 <= j < |es| && (es[j] == Tick || es[j] == Close) {
          assert rest[j - 1] == es[j];
        }
      }
    }
  }

  // --- the objects ---

  /** A buffered channel of empty values. */
  class Channel {
    const size: nat
    var tokens: nat
    var closed: bool

    constructor (size: nat)
      ensures this.size == size && tokens == 0 && !closed
    {
      this.size := size;
      tokens, closed := 0, false;
    }

    ghost function State(): State
      reads this
    {
      Alive(size, tokens, closed)
    }
  }

  datatype Error = ErrRateLimited | ErrRateLimitSize | ErrRateLimitTime

  datatype Option<T> = None | Some(value: T)

  class RateLimiter {
    const tokens: Channel
    const limit: int

    constructor (tokens: Channel, limit: int)
      ensures this.tokens == tokens && this.limit == limit
    {
      this.tokens, this.limit := tokens, limit;
    }

    /** One round of startRefreshTokens; a tick delivered after the close would panic. */
    method Refresh()
      requires Step(tokens.State(), Tick).Alive?
      modifies tokens
      ensures tokens.State() == Step(old(tokens.State()), Tick)
      ensures tokens.tokens == old(tokens.tokens) + if old(tokens.tokens) < tokens.size then 1 else 0
      ensures tokens.closed == old(tokens.closed)
    {
      if tokens.tokens < tokens.size {
        tokens.tokens := tokens.tokens + 1;
      }
    }

    method TryGet() returns (err: Option<Error>)
      modifies tokens
      ensures tokens.State() == Step(old(tokens.State()), Get)
      ensures err == if old(tokens.tokens) > 0 then None else Some(ErrRateLimited)
      ensures tokens.tokens == if err == None then old(tokens.tokens) - 1 else 0
      ensures tokens.closed == old(tokens.closed)
    {
      if tokens.tokens > 0 {
        tokens.tokens := tokens.tokens - 1;
        err := None;
      } else {
        err := Some(ErrRateLimited);
      }
    }

    /** Stop without interleaved requests; a second Stop would panic. */
    method Stop()
      requires Step(tokens.State(), Close).Alive?
      modifies tokens
      ensures tokens.closed && tokens.tokens == 0
    {
      tokens.closed := true;
      ClearChannel(tokens);
    }
  }

  /** The drain loop: it receives until nothing is left, whether the channel is closed or not. */
  method ClearChannel(ch: Channel)
    modifies ch
    ensures ch.tokens == 0 && ch.closed == old(ch.closed)
    ensures ch.State() == Run(old(ch.State()), DrainSteps(old(ch.tokens)))
  {
    ghost var goal := Run(ch.State(), DrainSteps(ch.tokens));
    while ch.tokens > 0
      invariant ch.closed == old(ch.closed)
      invariant Run(ch.State(), DrainSteps(ch.tokens)) == goal
      decreases ch.tokens
    {
      assert DrainSteps(ch.tokens)[1..] == DrainSteps(ch.tokens - 1);
      ch.tokens := ch.tokens - 1;
    }
  }

  function DrainSteps(n: nat): seq<Event> {
    if n == 0 then [] else [Drain] + DrainSteps(n - 1)
  }

  method NewRateLimiter(limit: int, chanSize: int) returns (rl: RateLimiter?, err: Option<Error>)
    ensures err == if chanSize <= 0 then Some(ErrRateLimitSize) else if limit <= 0 then Some(ErrRateLimitTime) else None
    ensures rl != null <==> err == None
    ensures rl != null ==>
      fresh(rl) && fresh(rl.tokens) && rl.limit == limit && rl.tokens.State() == Alive(chanSize, chanSize, false)
  {
    if chanSize <= 0 {
      return null, Some(ErrRateLimitSize);
    }
    if limit <= 0 {
      return null, Some(ErrRateLimitTime);
    }
    var ch := new Channel(chanSize);
    for i := 0 to chanSize
      invariant ch.tokens == i && !ch.closed
      invariant fresh(ch)
    {
      ch.tokens := ch.tokens + 1;
    }
    rl := new RateLimiter(ch, limit);
    err := None;
  }
}
