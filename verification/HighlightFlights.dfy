// The active-group highlight bridge: one flight at a time, late and repeated
// replies dropped, and a correlation string that is never used twice.

module HighlightFlights {
  import opened Prelude
  import Decimal

  const MAX_SEQ := 1000000
  const MAX_SAFE := 9007199254740991
  const MAX_CORRELATION_LEN := 128

  /** What the script observes; windows carry their fullscreen state. */
  datatype Observed = Observed(focused: string, output: string, workspace: string, windows: map<string, bool>)

  /** A dispatched query: its correlation, the epoch it belongs to and the identity it asked about. */
  datatype Flight = Flight(correlation: string, epoch: nat, focused: string, output: string, workspace: string)

  /** A reply once parsed against the flight's identity. */
  datatype Reply =
    | Invalid
    | NoGroup(kept: Option<nat>)
    | Group(base: nat, focused: string, output: string, workspace: string, members: seq<string>)

  /** What the bridge asks of the effect; a highlight is for the issue with that number. */
  datatype Effect = Cleared | Shown(n: nat, members: seq<string>)

  function Correlation(generation: string, seqEpoch: nat, seq_: nat): string {
    generation + "-g" +
    (if seqEpoch == 0 then Decimal.ToString(seq_) else Decimal.ToString(seqEpoch) + "r" + Decimal.ToString(seq_))
  }

  /** The correlation the counters spell next, wrapping into a new sequence epoch. */
  function NextSpelling(generation: string, seqEpoch: nat, seq_: nat): string {
    if seq_ > MAX_SEQ then Correlation(generation, seqEpoch + 1, 0) else Correlation(generation, seqEpoch, seq_)
  }

  /** A flight and the counters behind its correlation. */
  datatype Issue = Issue(flight: Flight, seqEpoch: nat, seq_: nat)

  ghost predicate Earlier(e: nat, s: nat, e': nat, s': nat) {
    e < e' || (e == e' && s < s')
  }

  lemma NotTheMark(s: string, i: nat)
    requires Decimal.AllDigits(s) && i < |s|
    ensures s[i] != 'r'
  {
    assert s[i] in s;
  }

  lemma MarkIsNoDigit(a: string, b: string, c: string)
    requires Decimal.AllDigits(a)
    ensures a != b + "r" + c
  {
    if |b| < |a| {
      NotTheMark(a, |b|);
    }
  }

  lemma SplitAtMark(a: string, b: string, c: string, d: string)
    requires Decimal.AllDigits(a) && Decimal.AllDigits(c)
    requires a + "r" + b == c + "r" + d
    ensures a == c && b == d
  {
    var whole := a + "r" + b;
    assert whole[|a|] == 'r' && (c + "r" + d)[|c|] == 'r';
    if |a| < |c| {
      NotTheMark(c, |a|);
    } else if |c| < |a| {
      NotTheMark(a, |c|);
    } else {
      assert a == whole[..|a|] == c;
      assert b == whole[|a| + 1..] == d;
    }
  }

  /** Both shapes together spell the pair of counters without ambiguity. */
  lemma CorrelationInjective(generation: string, e: nat, s: nat, e': nat, s': nat)
    requires Correlation(generation, e, s) == Correlation(generation, e', s')
    ensures e == e' && s == s'
  {
    var p := |generation| + 2;
    var a, b := Correlation(generation, e, s)[p..], Correlation(generation, e', s')[p..];
    assert a == if e == 0 then Decimal.ToString(s) else Decimal.ToString(e) + "r" + Decimal.ToString(s);
    assert b == if e' == 0 then Decimal.ToString(s') else Decimal.ToString(e') + "r" + Decimal.ToString(s');
    Decimal.OnlyDigits(s);
    Decimal.OnlyDigits(s');
    Decimal.OnlyDigits(e);
    Decimal.OnlyDigits(e');
    if e == 0 && e' == 0 {
      Decimal.Injective(s, s');
    } else if e == 0 {
      MarkIsNoDigit(Decimal.ToString(s), Decimal.ToString(e'), Decimal.ToString(s'));
    } else if e' == 0 {
      MarkIsNoDigit(Decimal.ToString(s'), Decimal.ToString(e), Decimal.ToString(s));
    } else {
      SplitAtMark(Decimal.ToString(e), Decimal.ToString(s), Decimal.ToString(e'), Decimal.ToString(s'));
      Decimal.Injective(e, e');
      Decimal.Injective(s, s');
    }
  }

  /** Every correlation of a generation of at most 64 characters fits the wire cap. */
  lemma CorrelationFits(generation: string, e: nat, s: nat)
    requires |generation| <= 64 && e <= MAX_SAFE && s <= MAX_SEQ
    ensures |Correlation(generation, e, s)| <= 90 < MAX_CORRELATION_LEN
  {
    assert Decimal.PowerOfTen(7) == 10000000;
    assert Decimal.PowerOfTen(16) == 1000000000 * Decimal.PowerOfTen(7);
    Decimal.AtMostDigits(e, 16);
    Decimal.AtMostDigits(s, 7);
  }

  /** Every issue spells its own counters, and counters only grow. */
  ghost predicate IssuedInOrder(generation: string, issues: seq<Issue>, seqEpoch: nat, seq_: nat) {
    && (forall i | 0 <= i < |issues| :: issues[i].flight.correlation == Correlation(generation, issues[i].seqEpoch, issues[i].seq_)
                                        && Earlier(issues[i].seqEpoch, issues[i].seq_, seqEpoch, seq_))
    && (forall i, j | 0 <= i < j < |issues| :: Earlier(issues[i].seqEpoch, issues[i].seq_, issues[j].seqEpoch, issues[j].seq_))
  }

  /** No two flights of one instance share a correlation. */
  lemma CorrelationsUnique(generation: string, issues: seq<Issue>, seqEpoch: nat, seq_: nat, i: nat, j: nat)
    requires IssuedInOrder(generation, issues, seqEpoch, seq_)
    requires i < j < |issues|
    ensures issues[i].flight.correlation != issues[j].flight.correlation
  {
    if issues[i].flight.correlation == issues[j].flight.correlation {
      CorrelationInjective(generation, issues[i].seqEpoch, issues[i].seq_, issues[j].seqEpoch, issues[j].seq_);
    }
  }

  ghost function Last(effects: seq<Effect>): Option<nat> {
    if effects == [] || effects[|effects| - 1].Cleared? then None else Some(effects[|effects| - 1].n)
  }

  /** Every highlight answers a reply, and highlights go up in the order their flights were
      issued, no flight twice. */
  ghost predicate ShownInOrder(effects: seq<Effect>, answered: set<nat>) {
    && (forall i | 0 <= i < |effects| :: effects[i].Shown? ==> effects[i].n in answered)
    && (forall i, j | 0 <= i < j < |effects| :: effects[i].Shown? && effects[j].Shown? ==> effects[i].n < effects[j].n)
  }

  /** Answering the newest issue, with a highlight or without, keeps the order. */
  lemma AnswerNewest(effects: seq<Effect>, answered: set<nat>, n: nat, members: seq<string>)
    requires ShownInOrder(effects, answered) && n !in answered && forall k <- answered :: k <= n
    ensures ShownInOrder(effects + [Shown(n, members)], answered + {n})
    ensures ShownInOrder(effects + [Cleared], answered + {n})
  {
  }

  lemma ClearKeepsOrder(effects: seq<Effect>, answered: set<nat>)
    requires ShownInOrder(effects, answered)
    ensures ShownInOrder(effects + [Cleared], answered)
  {
  }

  class ActiveGroupHighlight {
    const generation: string
    var epoch: nat
    var seq_: nat
    var seqEpoch: nat
    var pending: Option<Flight>
    var requestRevision: nat

    /** Requests to the effect, in order; the last one is what the bridge wants shown. */
    ghost var effects: seq<Effect>
    ghost var issues: seq<Issue>
    /** How many flights had been issued at the latest invalidation. */
    ghost var horizon: nat
    /** The issues a reply has been acted on for. */
    ghost var answered: set<nat>

    /** The issue the bridge currently wants shown, if any. */
    ghost function Showing(): Option<nat>
      reads this
    {
      Last(effects)
    }

    ghost predicate Valid()
      reads this
    {
      && IssuedInOrder(generation, issues, seqEpoch, seq_)
      && seq_ <= MAX_SEQ + 1
      && horizon <= |issues|
      && (forall n <- answered :: n < |issues|)
      // A pending flight is the newest one, issued after the latest invalidation and not answered.
      && (pending.Some? ==>
            && |issues| > horizon && pending.value == issues[|issues| - 1].flight
            && pending.value.epoch == epoch && |issues| - 1 !in answered)
      && ShownInOrder(effects, answered)
      // What is shown was issued after the latest invalidation.
      && (Showing().Some? ==> Showing().value >= horizon)
    }

    constructor (generation: string)
      ensures Valid() && effects == [] && issues == [] && this.generation == generation
    {
      this.generation := generation;
      epoch, seq_, seqEpoch, pending, requestRevision := 0, 0, 0, None, 0;
      effects, issues, horizon, answered := [], [], 0, {};
    }

    method ClearFlight()
      modifies `pending, `effects
      ensures pending == None && effects == old(effects) + [Cleared]
    {
      pending := None;
      effects := effects + [Cleared];
    }

    /** No safe pair of counters is left. */
    predicate Exhausted(seqEpoch: nat, seq_: nat) {
      seqEpoch > MAX_SAFE || (seq_ > MAX_SEQ && seqEpoch == MAX_SAFE)
    }

    /** The next correlation: the counter wraps into a new sequence epoch at its maximum. */
    method NextCorrelation() returns (r: Option<string>, ghost e: nat, ghost s: nat)
      requires IssuedInOrder(generation, issues, seqEpoch, seq_) && seq_ <= MAX_SEQ + 1
      modifies `seq_, `seqEpoch
      ensures IssuedInOrder(generation, issues, seqEpoch, seq_) && seq_ <= MAX_SEQ + 1
      ensures r.Some? ==> r.value == Correlation(generation, e, s) && Counts(issues, e, s, seqEpoch, seq_)
      ensures r.Some? ==> (e, s) == (if old(seq_) > MAX_SEQ then (old(seqEpoch) + 1, 0) else (old(seqEpoch), old(seq_)))
      ensures r.None? <==> Exhausted(old(seqEpoch), old(seq_))
    {
      e, s := 0, 0;
      if seq_ > MAX_SAFE || seqEpoch > MAX_SAFE {
        return None, e, s;
      }
      if seq_ > MAX_SEQ {
        seq_ := 0;
        seqEpoch := seqEpoch + 1;
        if seqEpoch > MAX_SAFE {
          return None, e, s;
        }
      }
      e, s := seqEpoch, seq_;
      r := Some(Correlation(generation, seqEpoch, seq_));
      seq_ := seq_ + 1;
    }

    /** Supersede whatever is in flight: dispatch a new query, or clear. A query goes out exactly when
        there is an observation, a correlation that fits, and a request the environment takes. */
    method Refresh(observed: Option<Observed>, taken: bool)
      requires Valid()
      modifies this
      ensures Valid()
      ensures epoch == old(epoch) + 1 && horizon == old(horizon) && answered == old(answered)
      ensures issues == old(issues) || (|issues| == |old(issues)| + 1 && old(issues) <= issues)
      ensures if pending.Some? then |issues| == |old(issues)| + 1 && effects == old(effects)
              else effects == old(effects) + [Cleared]
      ensures pending.Some? ==>
                observed.Some? && pending.value == Flight(NextSpelling(generation, old(seqEpoch), old(seq_)), epoch,
                                        observed.value.focused, observed.value.output, observed.value.workspace)
      // The correlation spells the counters, a full sequence starting the next epoch.
      ensures pending.Some? && old(seqEpoch) == 0 && old(seq_) <= 1000000 ==>
                pending.value.correlation == generation + "-g" + Decimal.ToString(old(seq_))
      ensures pending.Some? && old(seqEpoch) > 0 && old(seq_) <= 1000000 ==>
                pending.value.correlation == generation + "-g" + (Decimal.ToString(old(seqEpoch)) + "r" + Decimal.ToString(old(seq_)))
      ensures pending.Some? && old(seq_) > 1000000 ==>
                pending.value.correlation == generation + "-g" + (Decimal.ToString(old(seqEpoch) + 1) + "r" + Decimal.ToString(0))
      ensures pending.Some? <==> observed.Some? && taken && !Exhausted(old(seqEpoch), old(seq_)) &&
                                 |NextSpelling(generation, old(seqEpoch), old(seq_))| <= MAX_CORRELATION_LEN
    {
      epoch := epoch + 1;
      ClearKeepsOrder(effects, answered);
      if observed.None? {
        ClearFlight();
        return;
      }
      var correlation, e, s := NextCorrelation();
      if correlation.None? || |correlation.value| > MAX_CORRELATION_LEN {
        ClearFlight();
        return;
      }
      var flight := Flight(correlation.value, epoch, observed.value.focused, observed.value.output, observed.value.workspace);
      NewCorrelation(generation, issues, Issue(flight, e, s), seqEpoch, seq_);
      issues := issues + [Issue(flight, e, s)];
      pending := Some(flight);
      if !taken {
        ClearFlight();
      }
    }

    method Invalidate()
      requires Valid()
      modifies this
      ensures Valid() && Showing() == None
      ensures effects == old(effects) + [Cleared] && issues == old(issues) && horizon == |issues|
    {
      epoch := epoch + 1;
      ClearKeepsOrder(effects, answered);
      pending := None;
      effects := effects + [Cleared];
      horizon := |issues|;
    }

    /** The reply is for the newest flight and nothing has superseded that flight. */
    predicate Current(flight: Option<Flight>)
      reads this
    {
      flight.Some? && pending.Some? && flight.value.correlation == pending.value.correlation &&
      flight.value.epoch == pending.value.epoch && flight.value.epoch == epoch
    }

    /** Late, repeated and superseded replies change nothing; the newest flight's first reply
        sets the highlight, exactly when it is justified by what is observed then and the setter
        takes it, or clears. */
    method OnReply(reply: Reply, flight: Option<Flight>, observed: Option<Observed>, taken: bool)
      requires Valid()
      modifies this
      ensures Valid()
      ensures epoch == old(epoch) && issues == old(issues) && horizon == old(horizon)
      ensures !old(Current(flight)) ==>
                effects == old(effects) && pending == old(pending) && requestRevision == old(requestRevision) && answered == old(answered)
      ensures old(Current(flight)) ==>
                && |issues| > horizon && flight.value.correlation == issues[|issues| - 1].flight.correlation
                && |issues| - 1 !in old(answered) && answered == old(answered) + {|issues| - 1}
                && pending == None
                && (if taken && Justified(issues[|issues| - 1].flight, reply, observed)
                    then effects == old(effects) + [Shown(|issues| - 1, reply.members)] && requestRevision == reply.base
                    else effects == old(effects) + [Cleared]
                         && requestRevision == (if reply.NoGroup? && reply.kept.Some? then reply.kept.value else old(requestRevision)))
      // It goes up exactly when the setter takes it, the reply is a group of the asked identity, and every member is
      // observed and not fullscreen.
      ensures old(Current(flight)) ==>
                var asked := issues[|issues| - 1].flight;
                effects == old(effects) + [Cleared] <==>
                  || !taken || !reply.Group? || observed.None?
                  || reply.focused != asked.focused || reply.output != asked.output || reply.workspace != asked.workspace
                  || exists m <- reply.members :: m !in observed.value.windows || observed.value.windows[m]
    {
      hide IssuedInOrder, ShownInOrder;
      if Current(flight) {
        Answer(reply, observed, taken);
      }
    }

    /** The first reply to the newest flight. */
    method Answer(reply: Reply, observed: Option<Observed>, taken: bool)
      requires Valid() && Current(pending)
      modifies this
      ensures Valid()
      ensures epoch == old(epoch) && issues == old(issues) && horizon == old(horizon) && pending == None
      ensures |issues| > horizon && old(pending) == Some(issues[|issues| - 1].flight)
      ensures |issues| - 1 !in old(answered) && answered == old(answered) + {|issues| - 1}
      ensures if taken && Justified(issues[|issues| - 1].flight, reply, observed)
              then effects == old(effects) + [Shown(|issues| - 1, reply.members)] && requestRevision == reply.base
              else effects == old(effects) + [Cleared]
                   && requestRevision == (if reply.NoGroup? && reply.kept.Some? then reply.kept.value else old(requestRevision))
    {
      hide IssuedInOrder;
      var asked := pending.value;
      AnswerNewest(effects, answered, |issues| - 1, if reply.Group? then reply.members else []);
      answered := answered + {|issues| - 1};
      var justified := CheckJustified(asked, reply, observed);
      if taken && justified {
        pending := None;
        effects := effects + [Shown(|issues| - 1, reply.members)];
        requestRevision := reply.base;
      } else {
        if reply.NoGroup? && reply.kept.Some? {
          requestRevision := reply.kept.value;
        }
        ClearFlight();
      }
    }

    /** The identity gate, then the gate on a fresh observation of every member. */
    method CheckJustified(asked: Flight, reply: Reply, observed: Option<Observed>) returns (ok: bool)
      ensures ok <==> Justified(asked, reply, observed)
    {
      ok := false;
      if !reply.Group? || reply.focused != asked.focused || reply.output != asked.output || reply.workspace != asked.workspace {
        return;
      }
      if observed.None? {
        return;
      }
      for i := 0 to |reply.members|
        invariant forall j | 0 <= j < i :: reply.members[j] in observed.value.windows && !observed.value.windows[reply.members[j]]
      {
        var member := reply.members[i];
        if member !in observed.value.windows || observed.value.windows[member] {
          assert member in reply.members;
          return;
        }
      }
      ok := true;
    }

    /** Any interleaving of refreshes, invalidations and replies to any flight whatever. */
    method AnyRun(steps: nat)
      requires Valid()
      modifies this
      ensures Valid()
      ensures forall i, j | 0 <= i < j < |issues| :: issues[i].flight.correlation != issues[j].flight.correlation
    {
      for n := 0 to steps
        invariant Valid()
      {
        var choice: nat, observed: Option<Observed>, taken: bool := *, *, *;
        if choice == 0 {
          Refresh(observed, taken);
        } else if choice == 1 {
          Invalidate();
        } else {
          var reply: Reply := *;
          var flight: Option<Flight> := *;
          OnReply(reply, flight, observed, taken);
        }
      }
      forall i, j | 0 <= i < j < |issues|
        ensures issues[i].flight.correlation != issues[j].flight.correlation
      {
        CorrelationsUnique(generation, issues, seqEpoch, seq_, i, j);
      }
    }
  }

  /** A highlight is shown only for the asked identity, with every member seen and none fullscreen. */
  ghost predicate Justified(asked: Flight, reply: Reply, observed: Option<Observed>) {
    && reply.Group? && observed.Some?
    && reply.focused == asked.focused && reply.output == asked.output && reply.workspace == asked.workspace
    && forall m <- reply.members :: m in observed.value.windows && !observed.value.windows[m]
  }

  lemma NewCorrelation(generation: string, issues: seq<Issue>, next: Issue, seqEpoch: nat, seq_: nat)
    requires IssuedInOrder(generation, issues, seqEpoch, seq_)
    requires Counts(issues, next.seqEpoch, next.seq_, seqEpoch, seq_)
    requires next.flight.correlation == Correlation(generation, next.seqEpoch, next.seq_)
    ensures IssuedInOrder(generation, issues + [next], seqEpoch, seq_)
  {
  }

  /** A pair of counters newer than every issue and older than the next pair. */
  ghost predicate Counts(issues: seq<Issue>, e: nat, s: nat, seqEpoch: nat, seq_: nat) {
    && Earlier(e, s, seqEpoch, seq_)
    && forall i | 0 <= i < |issues| :: Earlier(issues[i].seqEpoch, issues[i].seq_, e, s)
  }
}
