/** The consumer of main.go:58-64: the closure handed to `readVcf`, which
    prints a record the first time its key arrives and keeps a `seen` map of
    counts. */
module Dedup {
  import opened Common

  /** `seen[key]` in Go: a key not in the map reads as 0. */
  function Count(seen: map<string, int>, key: string): int
  {
    if key in seen then seen[key] else 0
  }

  /** The consumer's state: the count map and what has been printed. */
  datatype State = State(seen: map<string, int>, out: seq<string>)

  /** The closure on one message, as written: print and bump the count only
      when the count is 0. */
  function Step(state: State, m: Msg): State
  {
    if Count(state.seen, m.key) == 0 then State(state.seen[m.key := Count(state.seen, m.key) + 1], state.out + [m.line])
    else state
  }

  /** The state after consuming `msgs` in order, from an empty map. */
  function Drain(msgs: seq<Msg>): State
  {
    if msgs == [] then State(map[], [])
    else Step(Drain(msgs[..|msgs| - 1]), msgs[|msgs| - 1])
  }

  class Consumer {
    var seen: map<string, int>
    var out: seq<string>

    constructor ()
      ensures seen == map[] && out == []
    {
      seen := map[];
      out := [];
    }

    /** The closure of main.go:59-64 for one message. */
    method Consume(m: Msg)
      modifies this
      ensures State(seen, out) == Step(old(State(seen, out)), m)
    {
      if Count(seen, m.key) == 0 {
        out := out + [m.line];
        seen := seen[m.key := Count(seen, m.key) + 1];
      }
    }

    /** The closure with the count kept for every arrival, as the final
        report of main.go:66-68 expects: prints on the first arrival only,
        and counts every arrival. */
    method ConsumeCounting(m: Msg)
      modifies this
      ensures seen == old(seen)[m.key := Count(old(seen), m.key) + 1]
      ensures out == if Count(old(seen), m.key) == 0 then old(out) + [m.line] else old(out)
    {
      if Count(seen, m.key) == 0 {
        out := out + [m.line];
      }
      seen := seen[m.key := Count(seen, m.key) + 1];
    }
  }

  /** The consumer goroutine of main.go:240-245: drains the messages in the
      order they arrive. */
  method RunConsumer(msgs: seq<Msg>) returns (seen: map<string, int>, out: seq<string>)
    ensures State(seen, out) == Drain(msgs)
  {
    var c := new Consumer();
    var i := 0;
    while i < |msgs|
      invariant i <= |msgs|
      invariant State(c.seen, c.out) == Drain(msgs[..i])
    {
      assert msgs[..i + 1][..i] == msgs[..i];
      c.Consume(msgs[i]);
      i := i + 1;
    }
    assert msgs[..i] == msgs;
    return c.seen, c.out;
  }

  /** The keys of the messages. */
  function KeysOf(msgs: seq<Msg>): set<string>
  {
    set m | m in msgs :: m.key
  }

  /** Message `k` is the first to carry its key. */
  predicate FirstOfKey(msgs: seq<Msg>, k: nat)
    requires k < |msgs|
  {
    forall j :: 0 <= j < k ==> msgs[j].key != msgs[k].key
  }

  /** The messages that are first to carry their key, in order. */
  function FirstArrivals(msgs: seq<Msg>): seq<Msg>
  {
    if msgs == [] then []
    else
      var init, m := msgs[..|msgs| - 1], msgs[|msgs| - 1];
      if m.key in KeysOf(init) then FirstArrivals(init) else FirstArrivals(init) + [m]
  }

  /** The lines of some messages. */
  function Lines(msgs: seq<Msg>): (lines: seq<string>)
    ensures |lines| == |msgs| && forall i :: 0 <= i < |msgs| ==> lines[i] == msgs[i].line
  {
    if msgs == [] then [] else Lines(msgs[..|msgs| - 1]) + [msgs[|msgs| - 1].line]
  }

  lemma KeysOfSnoc(msgs: seq<Msg>, m: Msg)
    ensures KeysOf(msgs + [m]) == KeysOf(msgs) + {m.key}
  {
    assert forall x :: x in msgs + [m] <==> x in msgs || x == m;
  }

  /** The consumer as written: the keys seen are exactly the keys received,
      each with count 1, and what is printed is the line of the first
      message of every key, in arrival order. */
  lemma {:induction false} DrainPrintsFirstArrivals(msgs: seq<Msg>)
    ensures Drain(msgs).seen.Keys == KeysOf(msgs)
    ensures forall key :: key in Drain(msgs).seen ==> Drain(msgs).seen[key] == 1
    ensures Drain(msgs).out == Lines(FirstArrivals(msgs))
  {
    if msgs != [] {
      var init, m := msgs[..|msgs| - 1], msgs[|msgs| - 1];
      DrainPrintsFirstArrivals(init);
      assert msgs == init + [m];
      KeysOfSnoc(init, m);
      var f := FirstArrivals(init);
      if m.key !in KeysOf(init) {
        assert (f + [m])[..|f + [m]| - 1] == f;
      }
    }
  }

  /** The first arrivals carry pairwise distinct keys, and every key
      received is among them: each key is printed exactly once. */
  lemma {:induction false} FirstArrivalsDistinct(msgs: seq<Msg>)
    ensures KeysOf(FirstArrivals(msgs)) == KeysOf(msgs)
    ensures forall i, j :: 0 <= i < j < |FirstArrivals(msgs)| ==>
      FirstArrivals(msgs)[i].key != FirstArrivals(msgs)[j].key
  {
    if msgs != [] {
      var init, m := msgs[..|msgs| - 1], msgs[|msgs| - 1];
      FirstArrivalsDistinct(init);
      assert msgs == init + [m];
      KeysOfSnoc(init, m);
      var f := FirstArrivals(init);
      if m.key !in KeysOf(init) {
        KeysOfSnoc(f, m);
        forall i | 0 <= i < |f| ensures f[i].key != m.key {
          assert f[i] in f;
        }
      }
    }
  }

  /** Each first arrival is a message that no earlier message shares a key
      with: the first arrival of a key wins. */
  lemma {:induction false} FirstArrivalsAreFirst(msgs: seq<Msg>, i: nat) returns (k: nat)
    requires i < |FirstArrivals(msgs)|
    ensures k < |msgs| && msgs[k] == FirstArrivals(msgs)[i] && FirstOfKey(msgs, k)
  {
    var init, m := msgs[..|msgs| - 1], msgs[|msgs| - 1];
    var f := FirstArrivals(init);
    if i < |f| {
      k := FirstArrivalsAreFirst(init, i);
      assert msgs[k] == init[k];
      assert forall j :: 0 <= j < k ==> msgs[j] == init[j];
    } else {
      k := |msgs| - 1;
      assert m.key !in KeysOf(init);
      forall j | 0 <= j < k ensures msgs[j].key != m.key {
        assert msgs[j] == init[j] && init[j] in init;
      }
    }
  }

  /** The keys seen and their counts do not depend on the order in which
      the messages arrive; only which line of a repeated key is printed
      does. */
  lemma SeenIgnoresOrder(a: seq<Msg>, b: seq<Msg>)
    requires multiset(a) == multiset(b)
    ensures Drain(a).seen == Drain(b).seen
  {
    DrainPrintsFirstArrivals(a);
    DrainPrintsFirstArrivals(b);
    assert forall m :: m in a <==> m in b by {
      forall m ensures m in a <==> m in b {
        assert m in a <==> m in multiset(a);
        assert m in b <==> m in multiset(b);
      }
    }
    assert KeysOf(a) == KeysOf(b);
  }

  /** A key received twice is still counted once. */
  lemma RepeatsNotCounted(m: Msg)
    ensures Drain([m, m]).seen[m.key] == 1 && Occurrences([m, m], m.key) == 2
  {
    DrainPrintsFirstArrivals([m, m]);
    assert m in [m, m];
    assert [m][1..] == [] && Occurrences([m], m.key) == 1;
    assert [m, m][1..] == [m];
  }

  /** How many messages carry `key`. */
  function Occurrences(msgs: seq<Msg>, key: string): nat
  {
    if msgs == [] then 0
    else (if msgs[0].key == key then 1 else 0) + Occurrences(msgs[1..], key)
  }

  /** The counts `ConsumeCounting` keeps after `msgs`. */
  function Tally(msgs: seq<Msg>): map<string, int>
  {
    if msgs == [] then map[]
    else
      var t := Tally(msgs[..|msgs| - 1]);
      var key := msgs[|msgs| - 1].key;
      t[key := Count(t, key) + 1]
  }

  /** Every key received has a count of at least one, and no other key has
      a count. */
  lemma {:induction false} TallyKeys(msgs: seq<Msg>)
    ensures Tally(msgs).Keys == KeysOf(msgs)
    ensures forall key :: key in Tally(msgs) ==> Tally(msgs)[key] >= 1
  {
    if msgs != [] {
      var init, m := msgs[..|msgs| - 1], msgs[|msgs| - 1];
      TallyKeys(init);
      assert msgs == init + [m];
      KeysOfSnoc(init, m);
    }
  }

  lemma {:induction false} OccurrencesSnoc(msgs: seq<Msg>, m: Msg, key: string)
    ensures Occurrences(msgs + [m], key) == Occurrences(msgs, key) + (if m.key == key then 1 else 0)
  {
    if msgs != [] {
      assert (msgs + [m])[1..] == msgs[1..] + [m];
      OccurrencesSnoc(msgs[1..], m, key);
    }
  }

  /** With every arrival counted, the count of a key is the number of
      messages carrying it. */
  lemma {:induction false} TallyCounts(msgs: seq<Msg>, key: string)
    ensures Count(Tally(msgs), key) == Occurrences(msgs, key)
  {
    if msgs != [] {
      var init, m := msgs[..|msgs| - 1], msgs[|msgs| - 1];
      TallyCounts(init, key);
      assert msgs == init + [m];
      OccurrencesSnoc(init, m, key);
    }
  }

  /** One more message: both consumers print on the same condition, since
      a key has a count in either map exactly when it was received before. */
  lemma CountingStep(msgs: seq<Msg>, i: nat)
    requires i < |msgs|
    ensures var t, m := Tally(msgs[..i]), msgs[i];
      Tally(msgs[..i + 1]) == t[m.key := Count(t, m.key) + 1] &&
      Drain(msgs[..i + 1]).out ==
        if Count(t, m.key) == 0 then Drain(msgs[..i]).out + [m.line] else Drain(msgs[..i]).out
  {
    assert msgs[..i + 1][..i] == msgs[..i];
    TallyKeys(msgs[..i]);
    DrainPrintsFirstArrivals(msgs[..i]);
  }

  /** The consumer with every arrival counted: the same lines printed as by
      `Consume`, and the counts of `Tally`. */
  method RunCountingConsumer(msgs: seq<Msg>) returns (seen: map<string, int>, out: seq<string>)
    ensures seen == Tally(msgs) && out == Drain(msgs).out
  {
    var c := new Consumer();
    var i := 0;
    while i < |msgs|
      invariant i <= |msgs|
      invariant c.seen == Tally(msgs[..i]) && c.out == Drain(msgs[..i]).out
    {
      CountingStep(msgs, i);
      c.ConsumeCounting(msgs[i]);
      i := i + 1;
    }
    assert msgs[..i] == msgs;
    return c.seen, c.out;
  }
}
