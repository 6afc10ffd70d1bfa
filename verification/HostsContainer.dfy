/** The mailbox of the hosts container (internal/aghnet/hostscontainer.go): one
    producer, one consumer, and a channel that buffers one update. */
module HostsContainer {
  import opened Wrappers

  /** Where the producer is in `refresh` and `sendUpd`. */
  datatype Producer<V> =
    | Idle
    | Selecting(rec: V)  // at the select statement
    | Sending(rec: V)    // took the old update out, about to send the new one

  /** `published` lists what has been stored as current, `consumed` what the
      consumer has received so far. */
  datatype State<V> = State(
    current: Option<V>,
    buffer: seq<V>,
    producer: Producer<V>,
    published: seq<V>,
    consumed: seq<V>)

  /** The atomic steps; the first five are the producer's. */
  datatype Step<V> =
    | Refresh(rec: V)
    | SelectSend
    | SelectReplace
    | SelectDefault
    | InnerSend
    | Consume

  ghost predicate Init<V>(s: State<V>) {
    s == State(None, [], Idle, [], [])
  }

  /** The channel is made with room for one update. */
  const CAPACITY := 1

  ghost predicate SendReady<V>(s: State<V>) {
    |s.buffer| < CAPACITY
  }

  ghost predicate ReceiveReady<V>(s: State<V>) {
    |s.buffer| > 0
  }

  /** A step that can be taken now; the default branch only when no other
      branch of the select is ready. */
  ghost predicate Enabled<V>(s: State<V>, step: Step<V>) {
    match step
    case Refresh(_) => s.producer.Idle?
    case SelectSend => s.producer.Selecting? && SendReady(s)
    case SelectReplace => s.producer.Selecting? && ReceiveReady(s)
    case SelectDefault => s.producer.Selecting? && !SendReady(s) && !ReceiveReady(s)
    case InnerSend => s.producer.Sending? && SendReady(s)
    case Consume => ReceiveReady(s)
  }

  ghost function Apply<V>(s: State<V>, step: Step<V>): State<V>
    requires Enabled(s, step)
  {
    match step
    case Refresh(rec) =>
      if s.current == Some(rec) then s
      else s.(current := Some(rec), producer := Selecting(rec), published := s.published + [rec])
    case SelectSend => s.(buffer := s.buffer + [s.producer.rec], producer := Idle)
    case SelectReplace => s.(buffer := s.buffer[1..], producer := Sending(s.producer.rec))
    case SelectDefault => s.(producer := Idle)
    case InnerSend => s.(buffer := s.buffer + [s.producer.rec], producer := Idle)
    case Consume => s.(buffer := s.buffer[1..], consumed := s.consumed + [s.buffer[0]])
  }

  /** A run: every step is enabled where it is taken. */
  ghost predicate IsRun<V>(states: seq<State<V>>, steps: seq<Step<V>>) {
    && |states| == |steps| + 1 && Init(states[0])
    && forall i :: 0 <= i < |steps| ==> Enabled(states[i], steps[i]) && states[i + 1] == Apply(states[i], steps[i])
  }

  ghost predicate Subsequence<V>(a: seq<V>, b: seq<V>) {
    || a == []
    || (b != [] && a[|a| - 1] == b[|b| - 1] && Subsequence(a[..|a| - 1], b[..|b| - 1]))
    || (b != [] && Subsequence(a, b[..|b| - 1]))
  }

  ghost function Last<V>(s: seq<V>): Option<V> {
    if s == [] then None else Some(s[|s| - 1])
  }

  ghost function Init1<V>(s: seq<V>): seq<V> {
    if s == [] then [] else s[..|s| - 1]
  }

  /** Everything handed over so far, with what is still in the buffer. */
  ghost function Delivered<V>(s: State<V>): seq<V> {
    s.consumed + s.buffer
  }

  ghost predicate Inv<V>(s: State<V>) {
    && s.current == Last(s.published) && |s.buffer| <= CAPACITY
    && match s.producer
       case Idle => Subsequence(Delivered(s), s.published) && Last(Delivered(s)) == s.current
       case Selecting(rec) => s.current == Some(rec) && Subsequence(Delivered(s), Init1(s.published))
       case Sending(rec) => s.current == Some(rec) && s.buffer == [] && Subsequence(s.consumed, Init1(s.published))
  }

  lemma SubsequenceSnoc<V>(a: seq<V>, b: seq<V>, x: V)
    requires Subsequence(a, b)
    ensures Subsequence(a, b + [x]) && Subsequence(a + [x], b + [x])
  {
  }

  lemma {:induction false} SubsequencePrefix<V>(a: seq<V>, x: V, b: seq<V>)
    requires Subsequence(a + [x], b)
    ensures Subsequence(a, b)
  {
    assert (a + [x])[..|a|] == a;
    if Subsequence(a + [x], b[..|b| - 1]) {
      SubsequencePrefix(a, x, b[..|b| - 1]);
    }
  }

  lemma StepKeepsInv<V>(s: State<V>, step: Step<V>)
    requires Inv(s) && Enabled(s, step)
    ensures Inv(Apply(s, step))
  {
    hide Subsequence;
    var s' := Apply(s, step);
    match step
    case Refresh(rec) =>
      if s.current != Some(rec) {
        assert Init1(s'.published) == s.published;
      }
    case SelectSend =>
      SubsequenceSnoc(Delivered(s), Init1(s.published), s.producer.rec);
      assert Delivered(s') == Delivered(s) + [s.producer.rec];
      assert Init1(s.published) + [s.producer.rec] == s.published;
    case SelectReplace =>
      assert Delivered(s) == s.consumed + [s.buffer[0]];
      SubsequencePrefix(s.consumed, s.buffer[0], Init1(s.published));
    case InnerSend =>
      SubsequenceSnoc(s.consumed, Init1(s.published), s.producer.rec);
      assert Delivered(s') == s.consumed + [s.producer.rec];
      assert Init1(s.published) + [s.producer.rec] == s.published;
    case Consume =>
      assert Delivered(s') == Delivered(s);
  }

  lemma {:induction false} RunKeepsInv<V>(states: seq<State<V>>, steps: seq<Step<V>>, i: nat)
    requires IsRun(states, steps) && i < |states|
    ensures Inv(states[i])
  {
    if i > 0 {
      RunKeepsInv(states, steps, i - 1);
      StepKeepsInv(states[i - 1], steps[i - 1]);
    }
  }

  /** What the refreshes among the steps were given, in order. */
  ghost function Offered<V>(steps: seq<Step<V>>): seq<V> {
    if steps == [] then []
    else Offered(steps[..|steps| - 1]) + if steps[|steps| - 1].Refresh? then [steps[|steps| - 1].rec] else []
  }

  /** Without the elements that repeat the one before. */
  ghost function Squeezed<V>(s: seq<V>): seq<V> {
    if s == [] then []
    else if |s| > 1 && s[|s| - 1] == s[|s| - 2] then Squeezed(s[..|s| - 1])
    else Squeezed(s[..|s| - 1]) + [s[|s| - 1]]
  }

  lemma SqueezedSnoc<V>(s: seq<V>, x: V)
    ensures Squeezed(s + [x]) == if Last(s) == Some(x) then Squeezed(s) else Squeezed(s) + [x]
  {
    assert (s + [x])[..|s|] == s;
  }

  /** Under every interleaving, the current hosts are those of the latest refresh,
      and what has been published are the hosts of the refreshes that changed
      them, in order. */
  lemma {:induction false} PublishedAreRefreshes<V>(states: seq<State<V>>, steps: seq<Step<V>>, i: nat)
    requires IsRun(states, steps) && i < |states|
    ensures states[i].current == Last(Offered(steps[..i]))
    ensures states[i].published == Squeezed(Offered(steps[..i]))
  {
    if i > 0 {
      hide Squeezed;
      PublishedAreRefreshes(states, steps, i - 1);
      var before := Offered(steps[..i - 1]);
      assert steps[..i][..i - 1] == steps[..i - 1] && steps[..i][i - 1] == steps[i - 1];
      if steps[i - 1].Refresh? {
        SqueezedSnoc(before, steps[i - 1].rec);
      } else {
        assert before + [] == before;
      }
    }
  }

  /** A refresh with other hosts is on its way to the consumer, and one with the
      same hosts changes nothing. */
  lemma RefreshSends<V>(states: seq<State<V>>, steps: seq<Step<V>>, i: nat)
    requires IsRun(states, steps) && i < |steps| && steps[i].Refresh?
    ensures states[i].current != Some(steps[i].rec) ==>
              && states[i + 1].producer == Selecting(steps[i].rec) && states[i + 1].current == Some(steps[i].rec)
              && states[i + 1].published == states[i].published + [steps[i].rec]
              && states[i + 1].buffer == states[i].buffer && states[i + 1].consumed == states[i].consumed
    ensures states[i].current == Some(steps[i].rec) ==> states[i + 1] == states[i]
  {
    assert states[i + 1] == Apply(states[i], steps[i]);
  }

  /** Under every interleaving, what is consumed is a subsequence of what was
      published. */
  lemma ConsumedInOrder<V>(states: seq<State<V>>, steps: seq<Step<V>>, i: nat)
    requires IsRun(states, steps) && i < |states|
    ensures Subsequence(states[i].consumed, states[i].published)
  {
    var s := states[i];
    RunKeepsInv(states, steps, i);
    assert Delivered(s) == if s.buffer == [] then s.consumed else s.consumed + [s.buffer[0]];
    if s.buffer != [] {
      SubsequencePrefix(s.consumed, s.buffer[0], if s.producer.Idle? then s.published else Init1(s.published));
    }
    if !s.producer.Idle? {
      SubsequenceSnoc(s.consumed, Init1(s.published), s.producer.rec);
      assert Init1(s.published) + [s.producer.rec] == s.published;
    }
  }

  /** After each refresh the current hosts are in the buffer or were the last to
      be consumed: the latest update is never lost. */
  lemma LatestWins<V>(states: seq<State<V>>, steps: seq<Step<V>>, i: nat)
    requires IsRun(states, steps) && i < |states| && states[i].producer.Idle? && states[i].current.Some?
    ensures states[i].buffer == [states[i].current.value] || (states[i].buffer == [] && Last(states[i].consumed) == states[i].current)
  {
    RunKeepsInv(states, steps, i);
  }

  /** The default branch is never taken, and the producer is never stuck: exactly
      one branch of the select is ready, and the inner send never blocks. */
  lemma ProducerNeverStuck<V>(states: seq<State<V>>, steps: seq<Step<V>>, i: nat)
    requires IsRun(states, steps) && i < |states|
    ensures !Enabled(states[i], SelectDefault)
    ensures states[i].producer.Selecting? ==> (Enabled(states[i], SelectSend) <==> !Enabled(states[i], SelectReplace))
    ensures states[i].producer.Sending? ==> Enabled(states[i], InnerSend)
  {
    RunKeepsInv(states, steps, i);
  }

  /** In any reachable state an idle producer can refresh, and its update can get
      through: the steps that take it to the consumer are enabled one after
      another, whatever is in the buffer. */
  lemma RefreshArrives<V>(states: seq<State<V>>, steps: seq<Step<V>>, i: nat, rec: V)
    requires IsRun(states, steps) && i < |states| && states[i].producer.Idle? && states[i].current != Some(rec)
    ensures var s := states[i];
            && Enabled(s, Refresh(rec))
            && var s1 := Apply(s, Refresh(rec));
            && (if s.buffer == [] then Enabled(s1, SelectSend)
                else Enabled(s1, SelectReplace) && Enabled(Apply(s1, SelectReplace), InnerSend))
            && var s2 := if s.buffer == [] then Apply(s1, SelectSend) else Apply(Apply(s1, SelectReplace), InnerSend);
            && s2.producer.Idle? && s2.buffer == [rec] && Enabled(s2, Consume)
            && Apply(s2, Consume).consumed == s.consumed + [rec]
  {
    RunKeepsInv(states, steps, i);
  }
}
