// Stable per-output keys: an output is recognised by its identity tuple, and
// keys are never reissued within a session.

module SessionKeys {
  import opened Prelude
  import Decimal

  /** An output object as handed over by the window system; its tuple may be unreadable. */
  datatype Output = Output(handle: nat, tuple: Option<string>)

  type OutputKey = string

  datatype Slot = Slot(key: OutputKey, tuple: string)

  function KeyName(n: nat): OutputKey { "output-" + Decimal.ToString(n) }

  /** How many of the outputs carry the tuple. */
  function Carrying(outputs: seq<Output>, tuple: string): nat {
    if outputs == [] then 0
    else Carrying(outputs[..|outputs| - 1], tuple) + (if outputs[|outputs| - 1].tuple == Some(tuple) then 1 else 0)
  }

  /** How many keys were issued for the tuple. */
  function Issued(slots: seq<Slot>, tuple: string): nat {
    if slots == [] then 0
    else Issued(slots[..|slots| - 1], tuple) + (if slots[|slots| - 1].tuple == tuple then 1 else 0)
  }

  /** slots[i] is the k-th key (from 0) ever issued for the tuple. */
  predicate IsNth(slots: seq<Slot>, i: int, tuple: string, k: nat) {
    0 <= i < |slots| && slots[i].tuple == tuple && Issued(slots[..i], tuple) == k
  }

  /** The key is the k-th ever issued for the tuple. */
  ghost predicate NthKey(slots: seq<Slot>, tuple: string, k: nat, key: OutputKey) {
    exists i :: IsNth(slots, i, tuple, k) && slots[i].key == key
  }

  lemma {:induction false} IssuedGrows(slots: seq<Slot>, s: nat, r: nat, tuple: string)
    requires s <= r <= |slots|
    ensures Issued(slots[..s], tuple) <= Issued(slots[..r], tuple)
    ensures s < r && slots[s].tuple == tuple ==> Issued(slots[..s], tuple) < Issued(slots[..r], tuple)
    decreases r - s
  {
    if s < r {
      assert slots[..r][..r - 1] == slots[..r - 1];
      IssuedGrows(slots, s, r - 1, tuple);
    }
  }

  /** Below a positive count there is the slot that was issued last. */
  lemma {:induction false} LastIssued(slots: seq<Slot>, m: nat, tuple: string) returns (s: nat)
    requires m <= |slots| && Issued(slots[..m], tuple) > 0
    ensures s < m && slots[s].tuple == tuple && Issued(slots[..s], tuple) == Issued(slots[..m], tuple) - 1
  {
    assert slots[..m][..m - 1] == slots[..m - 1];
    if slots[m - 1].tuple == tuple {
      s := m - 1;
    } else {
      s := LastIssued(slots, m - 1, tuple);
    }
  }

  lemma NthUnique(slots: seq<Slot>, i: int, j: int, tuple: string, k: nat)
    requires IsNth(slots, i, tuple, k) && IsNth(slots, j, tuple, k)
    ensures i == j
  {
    if i < j { IssuedGrows(slots, i, j, tuple); }
    if j < i { IssuedGrows(slots, j, i, tuple); }
  }

  /** A key keeps its place when more slots are issued. */
  lemma NthKeyStable(slots: seq<Slot>, more: seq<Slot>, tuple: string, k: nat, key: OutputKey)
    requires slots <= more && NthKey(slots, tuple, k, key)
    ensures NthKey(more, tuple, k, key)
  {
    var i :| IsNth(slots, i, tuple, k) && slots[i].key == key;
    assert more[..i] == slots[..i] && more[i] == slots[i];
    assert IsNth(more, i, tuple, k);
  }

  /** The slots taken so far are, for every tuple, its earliest issued ones. */
  ghost predicate TakenInOrder(slots: seq<Slot>, consumed: set<nat>, outputs: seq<Output>) {
    && (forall s <- consumed :: s < |slots|)
    && (forall s: nat | s < |slots| :: s in consumed <==> Issued(slots[..s], slots[s].tuple) < Carrying(outputs, slots[s].tuple))
    && (forall tuple :: Carrying(outputs, tuple) <= Issued(slots, tuple))
  }

  /** No slot below m is free for the tuple. */
  ghost predicate NoneFreeBelow(slots: seq<Slot>, consumed: set<nat>, tuple: string, m: nat)
    requires m <= |slots|
  {
    forall s: nat | s < m :: s in consumed || slots[s].tuple != tuple
  }

  /** The first free slot of a tuple is the next one in its order of issue. */
  lemma FirstFreeIsNext(slots: seq<Slot>, consumed: set<nat>, outputs: seq<Output>, tuple: string, m: nat)
    requires TakenInOrder(slots, consumed, outputs)
    requires m <= |slots| && NoneFreeBelow(slots, consumed, tuple, m)
    requires m < |slots| ==> slots[m].tuple == tuple && m !in consumed
    ensures Issued(slots[..m], tuple) == Carrying(outputs, tuple)
  {
    if Issued(slots[..m], tuple) > 0 {
      var s := LastIssued(slots, m, tuple);
      assert s in consumed;
    }
    if m == |slots| {
      assert slots[..m] == slots;
    }
  }

  /** Taking that slot for one more output keeps the order. */
  lemma TakeNext(slots: seq<Slot>, consumed: set<nat>, outputs: seq<Output>, o: Output, m: nat)
    requires o.tuple.Some? && TakenInOrder(slots, consumed, outputs)
    requires IsNth(slots, m, o.tuple.value, Carrying(outputs, o.tuple.value))
    ensures TakenInOrder(slots, consumed + {m}, outputs + [o])
  {
    var tuple, k := o.tuple.value, Carrying(outputs, o.tuple.value);
    assert (outputs + [o])[..|outputs|] == outputs;
    forall s: nat | s < |slots|
      ensures s in consumed + {m} <==> Issued(slots[..s], slots[s].tuple) < Carrying(outputs + [o], slots[s].tuple)
    {
      if slots[s].tuple == tuple && Issued(slots[..s], tuple) == k {
        NthUnique(slots, s, m, tuple, k);
      }
    }
    IssuedGrows(slots, m, |slots|, tuple);
    assert slots[..|slots|] == slots;
    forall t
      ensures Carrying(outputs + [o], t) <= Issued(slots, t)
    {
    }
  }

  lemma SkipUnreadable(slots: seq<Slot>, consumed: set<nat>, outputs: seq<Output>, o: Output)
    requires o.tuple.None? && TakenInOrder(slots, consumed, outputs)
    ensures TakenInOrder(slots, consumed, outputs + [o])
  {
    assert (outputs + [o])[..|outputs|] == outputs;
    forall t
      ensures Carrying(outputs + [o], t) == Carrying(outputs, t)
    {
    }
  }

  lemma IssuedAppend(slots: seq<Slot>, slot: Slot, tuple: string)
    ensures Issued(slots + [slot], tuple) == Issued(slots, tuple) + if slot.tuple == tuple then 1 else 0
  {
    assert (slots + [slot])[..|slots|] == slots;
  }

  /** Issuing a new slot for an exhausted tuple leaves the others' order alone. */
  lemma IssueNew(slots: seq<Slot>, consumed: set<nat>, outputs: seq<Output>, slot: Slot)
    requires TakenInOrder(slots, consumed, outputs)
    requires Issued(slots, slot.tuple) == Carrying(outputs, slot.tuple)
    ensures TakenInOrder(slots + [slot], consumed, outputs)
    ensures IsNth(slots + [slot], |slots|, slot.tuple, Carrying(outputs, slot.tuple))
  {
    var more := slots + [slot];
    forall s: nat | s < |more|
      ensures s in consumed <==> Issued(more[..s], more[s].tuple) < Carrying(outputs, more[s].tuple)
    {
      NewSlotRank(slots, slot, s);
    }
    forall tuple
      ensures Carrying(outputs, tuple) <= Issued(more, tuple)
    {
      IssuedAppend(slots, slot, tuple);
    }
    assert more[..|slots|] == slots;
  }

  lemma NewSlotRank(slots: seq<Slot>, slot: Slot, s: nat)
    requires s <= |slots|
    ensures (slots + [slot])[..s] == slots[..s]
    ensures s < |slots| ==> (slots + [slot])[s] == slots[s]
    ensures s == |slots| ==> (slots + [slot])[s] == slot && slots[..s] == slots
  {
  }

  /** Each of the first n outputs has the key its place among the outputs of its tuple calls for. */
  ghost predicate KeyedInOrder(slots: seq<Slot>, byOutput: map<Output, OutputKey>, outputs: seq<Output>, n: nat)
    requires n <= |outputs|
  {
    forall j: nat | j < n && outputs[j].tuple.Some? ::
      && outputs[j] in byOutput
      && NthKey(slots, outputs[j].tuple.value, Carrying(outputs[..j], outputs[j].tuple.value), byOutput[outputs[j]])
  }

  lemma KeyedStep(before: seq<Slot>, slots: seq<Slot>, keys: map<Output, OutputKey>, outputs: seq<Output>, i: nat, key: OutputKey)
    requires before <= slots && i < |outputs| && NoDup(outputs) && outputs[i].tuple.Some?
    requires KeyedInOrder(before, keys, outputs, i)
    requires NthKey(slots, outputs[i].tuple.value, Carrying(outputs[..i], outputs[i].tuple.value), key)
    ensures KeyedInOrder(slots, keys[outputs[i] := key], outputs, i + 1)
  {
    forall j: nat | j < i && outputs[j].tuple.Some?
      ensures NthKey(slots, outputs[j].tuple.value, Carrying(outputs[..j], outputs[j].tuple.value), keys[outputs[j]])
    {
      NthKeyStable(before, slots, outputs[j].tuple.value, Carrying(outputs[..j], outputs[j].tuple.value), keys[outputs[j]]);
    }
  }

  /** Keys are issued only when a tuple has run out of them: each tuple has as many as it ever needed. */
  ghost predicate Frugal(before: seq<Slot>, slots: seq<Slot>, outputs: seq<Output>) {
    forall tuple :: Issued(slots, tuple) == if Issued(before, tuple) < Carrying(outputs, tuple) then Carrying(outputs, tuple) else Issued(before, tuple)
  }

  lemma FrugalStep(before: seq<Slot>, slots: seq<Slot>, more: seq<Slot>, outputs: seq<Output>, o: Output)
    requires Frugal(before, slots, outputs) && Grown(slots, more, outputs, o)
    requires forall tuple :: Carrying(outputs + [o], tuple) <= Issued(more, tuple)
    ensures Frugal(before, more, outputs + [o])
  {
    assert (outputs + [o])[..|outputs|] == outputs;
    forall tuple
      ensures Issued(more, tuple) == if Issued(before, tuple) < Carrying(outputs + [o], tuple) then Carrying(outputs + [o], tuple) else Issued(before, tuple)
    {
      assert Issued(slots, tuple) >= Issued(before, tuple) && Issued(slots, tuple) >= Carrying(outputs, tuple);
      if more != slots {
        IssuedAppend(slots, more[|slots|], tuple);
      }
    }
  }

  /** At most one key more, and only for a tuple that has none left. */
  ghost predicate Grown(slots: seq<Slot>, more: seq<Slot>, outputs: seq<Output>, o: Output) {
    || more == slots
    || (o.tuple.Some? && |more| == |slots| + 1 && more == slots + [more[|slots|]] && more[|slots|].tuple == o.tuple.value
        && Issued(slots, o.tuple.value) == Carrying(outputs, o.tuple.value))
  }

  /** The first i outputs have been given their keys. */
  ghost predicate Placed(slots: seq<Slot>, byOutput: map<Output, OutputKey>, consumed: set<nat>, outputs: seq<Output>, i: nat)
    requires i <= |outputs|
  {
    && TakenInOrder(slots, consumed, outputs[..i])
    && (NoDup(outputs) ==> KeyedInOrder(slots, byOutput, outputs, i))
    && (forall o <- byOutput :: o in outputs[..i] && o.tuple.Some?)
  }

  lemma PlacedNone(slots: seq<Slot>, outputs: seq<Output>)
    ensures Placed(slots, map[], {}, outputs, 0)
  {
    assert outputs[..0] == [];
    forall tuple
      ensures Carrying([], tuple) <= Issued(slots, tuple)
    {
    }
  }

  lemma PlacedAll(slots: seq<Slot>, byOutput: map<Output, OutputKey>, consumed: set<nat>, outputs: seq<Output>)
    requires Placed(slots, byOutput, consumed, outputs, |outputs|)
    ensures NoDup(outputs) ==> KeyedInOrder(slots, byOutput, outputs, |outputs|)
    ensures forall o <- byOutput :: o in outputs && o.tuple.Some?
  {
  }

  lemma PlacedFrugal(before: seq<Slot>, was: seq<Slot>, slots: seq<Slot>, byOutput: map<Output, OutputKey>, consumed: set<nat>, outputs: seq<Output>, i: nat)
    requires i < |outputs| && Placed(slots, byOutput, consumed, outputs, i + 1)
    requires Frugal(before, was, outputs[..i]) && Grown(was, slots, outputs[..i], outputs[i])
    ensures Frugal(before, slots, outputs[..i + 1])
  {
    assert outputs[..i + 1] == outputs[..i] + [outputs[i]];
    FrugalStep(before, was, slots, outputs[..i], outputs[i]);
  }

  class SessionOutputKeys {
    var slots: seq<Slot>
    var byOutput: map<Output, OutputKey>
    var next: nat

    /** The n-th slot carries the n-th key name, and only outputs with a readable tuple have keys. */
    ghost predicate Valid()
      reads this
    {
      && next == |slots| && (forall i | 0 <= i < |slots| :: slots[i].key == KeyName(i))
      && (forall o <- byOutput :: o.tuple.Some?)
    }

    constructor ()
      ensures Valid() && slots == [] && byOutput == map[]
    {
      slots, byOutput, next := [], map[], 0;
    }

    method FirstFree(tuple: string, consumed: set<nat>) returns (m: nat)
      ensures m <= |slots| && NoneFreeBelow(slots, consumed, tuple, m)
      ensures m < |slots| ==> slots[m].tuple == tuple && m !in consumed
    {
      m := 0;
      while m < |slots|
        invariant m <= |slots| && NoneFreeBelow(slots, consumed, tuple, m)
      {
        if m !in consumed && slots[m].tuple == tuple {
          return;
        }
        m := m + 1;
      }
    }

    /** Issue the next key for the tuple. */
    method Issue(tuple: string)
      requires Valid()
      modifies `slots, `next
      ensures Valid() && slots == old(slots) + [Slot(KeyName(old(next)), tuple)]
    {
      slots := slots + [Slot(KeyName(next), tuple)];
      next := next + 1;
    }

    /** Give one output the first free slot of its tuple, or a new one. */
    method Place(output: Output, consumed: set<nat>, ghost outputs: seq<Output>)
      returns (taken: set<nat>, ghost key: OutputKey)
      requires Valid() && output.tuple.Some? && TakenInOrder(slots, consumed, outputs)
      modifies this
      ensures Valid() && old(slots) <= slots
      ensures TakenInOrder(slots, taken, outputs + [output])
      ensures byOutput == old(byOutput)[output := key] && Grown(old(slots), slots, outputs, output)
      ensures NthKey(slots, output.tuple.value, Carrying(outputs, output.tuple.value), key)
    {
      var tuple := output.tuple.value;
      var m := FirstFree(tuple, consumed);
      FirstFreeIsNext(slots, consumed, outputs, tuple, m);
      if m == |slots| {
        assert slots[..m] == slots;
        IssueNew(slots, consumed, outputs, Slot(KeyName(next), tuple));
        Issue(tuple);
      }
      key := slots[m].key;
      byOutput := byOutput[output := slots[m].key];
      assert IsNth(slots, m, tuple, Carrying(outputs, tuple));
      TakeNext(slots, consumed, outputs, output, m);
      taken := consumed + {m};
    }

    /** Give the i-th output its key, or pass over it when its tuple is unreadable. */
    method Visit(outputs: seq<Output>, i: nat, consumed: set<nat>) returns (taken: set<nat>)
      requires Valid() && i < |outputs| && Placed(slots, byOutput, consumed, outputs, i)
      modifies this
      ensures Valid() && old(slots) <= slots && Placed(slots, byOutput, taken, outputs, i + 1)
      ensures Grown(old(slots), slots, outputs[..i], outputs[i])
    {
      assert outputs[..i + 1] == outputs[..i] + [outputs[i]];
      ghost var before, keys := slots, byOutput;
      if outputs[i].tuple.None? {
        SkipUnreadable(slots, consumed, outputs[..i], outputs[i]);
        taken := consumed;
      } else {
        ghost var key;
        taken, key := Place(outputs[i], consumed, outputs[..i]);
        if NoDup(outputs) {
          KeyedStep(before, slots, keys, outputs, i, key);
        }
      }
    }

    /** Match every connected output to the first free slot of its tuple, issuing a new key
        only when none is left: the k-th output of a tuple gets the k-th key ever issued for it. */
    method Rebuild(outputs: seq<Output>)
      requires Valid()
      modifies this
      ensures Valid() && old(slots) <= slots
      ensures NoDup(outputs) ==> KeyedInOrder(slots, byOutput, outputs, |outputs|)
      ensures forall o <- byOutput :: o in outputs && o.tuple.Some?
      ensures Frugal(old(slots), slots, outputs)
    {
      hide Placed;
      byOutput := map[];
      var consumed: set<nat> := {};
      PlacedNone(slots, outputs);
      for i := 0 to |outputs|
        invariant Valid() && old(slots) <= slots
        invariant Placed(slots, byOutput, consumed, outputs, i)
        invariant Frugal(old(slots), slots, outputs[..i])
      {
        ghost var was := slots;
        consumed := Visit(outputs, i, consumed);
        PlacedFrugal(old(slots), was, slots, byOutput, consumed, outputs, i);
      }
      assert outputs[..|outputs|] == outputs;
      PlacedAll(slots, byOutput, consumed, outputs);
    }

    /** The key of an output: its own, else the first ever issued for its tuple. */
    method KeyFor(output: Output) returns (key: Option<OutputKey>)
      ensures key == KeyOf(slots, byOutput, output)
    {
      if output in byOutput {
        return Some(byOutput[output]);
      }
      if output.tuple.None? {
        return None;
      }
      for i := 0 to |slots|
        invariant FirstKey(slots, output.tuple.value) == FirstKey(slots[i..], output.tuple.value)
      {
        if slots[i].tuple == output.tuple.value {
          return Some(slots[i].key);
        }
        assert slots[i..][1..] == slots[i + 1..];
      }
      key := None;
    }
  }

  function FirstKey(slots: seq<Slot>, tuple: string): Option<OutputKey> {
    if slots == [] then None
    else if slots[0].tuple == tuple then Some(slots[0].key)
    else FirstKey(slots[1..], tuple)
  }

  function KeyOf(slots: seq<Slot>, byOutput: map<Output, OutputKey>, output: Output): Option<OutputKey> {
    if output in byOutput then Some(byOutput[output])
    else if output.tuple.None? then None
    else FirstKey(slots, output.tuple.value)
  }

  /** Distinct connected outputs have distinct keys. */
  lemma DistinctOutputsDistinctKeys(slots: seq<Slot>, outputs: seq<Output>, byOutput: map<Output, OutputKey>, i: nat, j: nat)
    requires forall n | 0 <= n < |slots| :: slots[n].key == KeyName(n)
    requires i < j < |outputs| && outputs[i].tuple.Some? && outputs[j].tuple.Some?
    requires outputs[i] in byOutput && outputs[j] in byOutput
    requires NthKey(slots, outputs[i].tuple.value, Carrying(outputs[..i], outputs[i].tuple.value), byOutput[outputs[i]])
    requires NthKey(slots, outputs[j].tuple.value, Carrying(outputs[..j], outputs[j].tuple.value), byOutput[outputs[j]])
    ensures byOutput[outputs[i]] != byOutput[outputs[j]]
  {
    var tuple := outputs[i].tuple.value;
    var a :| IsNth(slots, a, tuple, Carrying(outputs[..i], tuple)) && slots[a].key == byOutput[outputs[i]];
    var b :| IsNth(slots, b, outputs[j].tuple.value, Carrying(outputs[..j], outputs[j].tuple.value)) && slots[b].key == byOutput[outputs[j]];
    if outputs[j].tuple.value == tuple {
      CarryingGrows(outputs, i, j, tuple);
      assert a != b;
    }
    if KeyName(a) == KeyName(b) {
      assert Decimal.ToString(a) == KeyName(a)[7..] && Decimal.ToString(b) == KeyName(b)[7..];
      Decimal.Injective(a, b);
    }
  }

  lemma {:induction false} CarryingGrows(outputs: seq<Output>, i: nat, j: nat, tuple: string)
    requires i <= j <= |outputs|
    ensures Carrying(outputs[..i], tuple) <= Carrying(outputs[..j], tuple)
    ensures i < j && outputs[i].tuple == Some(tuple) ==> Carrying(outputs[..i], tuple) < Carrying(outputs[..j], tuple)
    decreases j - i
  {
    if i < j {
      assert outputs[..j][..j - 1] == outputs[..j - 1];
      CarryingGrows(outputs, i, j - 1, tuple);
    }
  }

  /** A returning output gets its old key back: two rebuilds that rank it alike among the
      outputs of its tuple give it the same key, whatever was issued in between. */
  lemma ReturningOutputKeepsKey(slots: seq<Slot>, later: seq<Slot>, tuple: string, k: nat, one: OutputKey, two: OutputKey)
    requires slots <= later
    requires NthKey(slots, tuple, k, one) && NthKey(later, tuple, k, two)
    ensures one == two
  {
    NthKeyStable(slots, later, tuple, k, one);
    var i :| IsNth(later, i, tuple, k) && later[i].key == one;
    var j :| IsNth(later, j, tuple, k) && later[j].key == two;
    NthUnique(later, i, j, tuple, k);
  }
}
