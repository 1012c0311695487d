/** The self-registration loop of the controller: the loop goroutine with its `select`, the
    timer channel `again`, the unbuffered channel `done`, and the goroutines that register. */
module Registration {

  /** The channel last returned by `time.After`: not due, holding its value, or already read. */
  datatype Timer = Armed | Fired | Spent

  /** `registering` and `sending` count the goroutines inside `register` and those blocked on
      `done <- true`; `started` counts all register calls so far. */
  datatype State = State(looping: bool, stopClosed: bool, timer: Timer, registering: nat, sending: nat, started: nat)

  datatype Event = Expire | Return | Close | TakeAgain | TakeDone | TakeStop

  const START := State(true, false, Armed, 0, 0, 0)

  predicate Enabled(s: State, e: Event) {
    match e
    case Expire => s.timer == Armed
    case Return => s.registering > 0
    case Close => true
    case TakeAgain => s.looping && s.timer == Fired
    case TakeDone => s.looping && s.sending > 0
    case TakeStop => s.looping && s.stopClosed
  }

  /** Any enabled event may come next; the others change nothing. */
  function Apply(s: State, e: Event): State {
    if !Enabled(s, e) then s
    else match e
      case Expire => s.(timer := Fired)
      case Return => s.(registering := s.registering - 1, sending := s.sending + 1)
      case Close => s.(stopClosed := true)
      case TakeAgain => s.(timer := Spent, registering := s.registering + 1, started := s.started + 1)
      case TakeDone => s.(timer := Armed, sending := s.sending - 1)
      case TakeStop => s.(looping := false)
  }

  function Run(s: State, es: seq<Event>): State
    decreases |es|
  {
    if es == [] then s else Run(Apply(s, es[0]), es[1..])
  }

  /** How many of "timer pending", "register running" and "done pending" there are. */
  function Tokens(s: State): nat {
    (if s.timer == Spent then 0 else 1) + s.registering + s.sending
  }

  /** Before the loop takes stop there is exactly one of a pending timer, a running register call
      and a pending done, however many goroutines and timers the events could create; and at no
      time, before or after, is more than one register call in flight. */
  lemma {:induction false} ExactlyOneActivity(s: State, es: seq<Event>)
    requires Tokens(s) == 1
    ensures Tokens(Run(s, es)) == 1
    ensures Run(s, es).registering <= 1
    decreases |es|
  {
    if es == [] {
    } else {
      ExactlyOneActivity(Apply(s, es[0]), es[1..]);
    }
  }

  /** Reading `done` never throws away a timer that is still pending. */
  lemma RearmingLosesNoTimer(es: seq<Event>)
    requires Enabled(Run(START, es), TakeDone)
    ensures Run(START, es).timer == Spent && Run(START, es).registering == 0
  {
    ExactlyOneActivity(START, es);
  }

  /** Once the loop has taken stop no register call starts, in any continuation. */
  lemma {:induction false} NoRegistrationAfterStop(s: State, es: seq<Event>)
    requires !s.looping
    ensures Run(s, es).started == s.started && Run(s, es).registering <= s.registering && !Run(s, es).looping
    decreases |es|
  {
    if es == [] {
    } else {
      NoRegistrationAfterStop(Apply(s, es[0]), es[1..]);
    }
  }

  /** After stop nobody reads `done`: a goroutine that gets there stays there. */
  lemma {:induction false} NobodyReadsAfterStop(s: State, es: seq<Event>)
    requires !s.looping && s.registering + s.sending <= 1
    ensures var s' := Run(s, es);
            && s'.registering + s'.sending == s.registering + s.sending
            && (s'.sending == 1 <==> s.sending == 1 || (s.registering == 1 && Return in es))
    decreases |es|
  {
    if es == [] {
    } else {
      NobodyReadsAfterStop(Apply(s, es[0]), es[1..]);
      assert Return in es <==> es[0] == Return || Return in es[1..];
    }
  }

  /** A goroutine that is in flight when the loop takes stop is not waited for. In every run and
      every continuation there is one left if and only if the timer was spent at that moment, and
      it is blocked on `done` for good as soon as its register call has returned. */
  lemma LateWorkerBlocks(es: seq<Event>, more: seq<Event>)
    requires Enabled(Run(START, es), TakeStop)
    ensures var s := Run(START, es);
            var s' := Run(Apply(s, TakeStop), more);
            && (s'.registering + s'.sending == 1 <==> s.timer == Spent)
            && (s'.sending == 1 <==> s.timer == Spent && (s.sending == 1 || Return in more))
  {
    ExactlyOneActivity(START, es);
    NobodyReadsAfterStop(Apply(Run(START, es), TakeStop), more);
  }

  /** Stop while the first register call runs; it returns and its goroutine stays blocked. */
  lemma WorkerCanBlock(more: seq<Event>)
    ensures var es := [Expire, TakeAgain, Close];
            && Enabled(Run(START, es), TakeStop)
            && Run(Apply(Run(START, es), TakeStop), [Return] + more).sending == 1
  {
    var es := [Expire, TakeAgain, Close];
    var s1 := Apply(START, Expire);
    var s2 := Apply(s1, TakeAgain);
    assert es[1..] == [TakeAgain, Close] && [TakeAgain, Close][1..] == [Close];
    assert Run(START, es) == Run(s1, [TakeAgain, Close]) == Run(s2, [Close]) == Run(Apply(s2, Close), []);
    assert Return in [Return] + more;
    LateWorkerBlocks(es, [Return] + more);
  }

  /** The registrations keep coming: while the loop runs, some continuation starts another one. */
  lemma RegistersAgain(es: seq<Event>) returns (more: seq<Event>)
    requires Run(START, es).looping
    ensures Run(Run(START, es), more).started == Run(START, es).started + 1
  {
    ExactlyOneActivity(START, es);
    var s := Run(START, es);
    if s.timer == Armed {
      more := [Expire, TakeAgain];
      assert more[1..] == [TakeAgain] && more[1..][1..] == [];
      assert Run(s, more) == Run(Apply(s, Expire), [TakeAgain]) == Run(Apply(Apply(s, Expire), TakeAgain), []);
    } else if s.timer == Fired {
      more := [TakeAgain];
      assert Run(s, more) == Run(Apply(s, TakeAgain), []);
    } else {
      more := [Return, TakeDone, Expire, TakeAgain];
      var s1 := Apply(s, Return);
      var s2 := Apply(s1, TakeDone);
      var s3 := Apply(s2, Expire);
      assert more[1..] == [TakeDone, Expire, TakeAgain];
      assert Run(s, more) == Run(s1, [TakeDone, Expire, TakeAgain]) == Run(s2, [Expire, TakeAgain]);
      assert [TakeDone, Expire, TakeAgain][1..] == [Expire, TakeAgain] && [Expire, TakeAgain][1..] == [TakeAgain];
      assert Run(s2, [Expire, TakeAgain]) == Run(s3, [TakeAgain]) == Run(Apply(s3, TakeAgain), []);
    }
  }
}
