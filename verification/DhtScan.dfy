/** The overlay search, round after round into one map, and the report of new DHT nodes. */
module DhtScan {
  import opened Wrappers
  import LastWins

  // ---- the overlay search ----

  /** A found node: its key id, unless the key cannot be read, and its record. */
  datatype Entry<I, R> = Entry(id: Option<I>, record: R)

  /** One search: an error, or the nodes found and whether the search is exhausted. */
  datatype Round<I, R> = RoundFailed | Round(found: seq<Entry<I, R>>, last: bool)

  datatype Outcome = Searching | Finished | Failed

  /** The pairs inserted for one round, up to the first unreadable key. */
  function Inserted<I, R>(found: seq<Entry<I, R>>): seq<(I, R)> {
    if |found| == 0 || found[0].id.None? then []
    else [(found[0].id.value, found[0].record)] + Inserted(found[1..])
  }

  predicate Readable<I, R>(found: seq<Entry<I, R>>) {
    forall i | 0 <= i < |found| :: found[i].id.Some?
  }

  /** Everything inserted, in order, and how the search ends. */
  function Trace<I, R>(rounds: seq<Round<I, R>>): (seq<(I, R)>, Outcome) {
    if |rounds| == 0 then ([], Searching)
    else if rounds[0].RoundFailed? then ([], Failed)
    else if !Readable(rounds[0].found) then (Inserted(rounds[0].found), Failed)
    else if rounds[0].last then (Inserted(rounds[0].found), Finished)
    else
      var rest := Trace(rounds[1..]);
      (Inserted(rounds[0].found) + rest.0, rest.1)
  }

  function Sum(s: seq<nat>): nat {
    if |s| == 0 then 0 else s[0] + Sum(s[1..])
  }

  /** How many ids are new in `here` after `done`. */
  function NewIds<I(==), R>(done: seq<(I, R)>, here: seq<(I, R)>): nat {
    LastWins.CollectAppend(done, here);
    |LastWins.Collect(done + here)| - |LastWins.Collect(done)|
  }

  /** The count reported for each completed round, after the pairs `done`. */
  function Growth<I(==), R>(done: seq<(I, R)>, rounds: seq<Round<I, R>>): seq<nat>
    decreases |rounds|
  {
    if |rounds| == 0 || rounds[0].RoundFailed? || !Readable(rounds[0].found) then []
    else
      var here := Inserted(rounds[0].found);
      [NewIds(done, here)] + if rounds[0].last then [] else Growth(done + here, rounds[1..])
  }

  lemma InsertedStep<I, R>(found: seq<Entry<I, R>>, i: nat)
    requires i < |found|
    ensures Inserted(found[i..]) ==
            if found[i].id.None? then []
            else [(found[i].id.value, found[i].record)] + Inserted(found[i + 1..])
  {
    assert found[i..][0] == found[i] && found[i..][1..] == found[i + 1..];
  }

  lemma CollectOne<I, R>(done: seq<(I, R)>, id: I, record: R)
    ensures LastWins.Collect(done + [(id, record)]) == LastWins.Collect(done)[id := record]
  {
    var all := done + [(id, record)];
    assert all[..|all| - 1] == done;
  }

  /** The nodes of one round go into the map. */
  method InsertAll<I(==), R>(before: map<I, R>, found: seq<Entry<I, R>>, ghost done: seq<(I, R)>)
    returns (ok: bool, overlays: map<I, R>)
    requires before == LastWins.Collect(done)
    ensures ok == Readable(found)
    ensures overlays == LastWins.Collect(done + Inserted(found))
  {
    overlays := before;
    ghost var all := done;
    assert found[0..] == found;
    for i := 0 to |found|
      invariant overlays == LastWins.Collect(all)
      invariant all + Inserted(found[i..]) == done + Inserted(found)
      invariant forall j | 0 <= j < i :: found[j].id.Some?
    {
      InsertedStep(found, i);
      if found[i].id.None? {
        assert all + [] == all;
        return false, overlays;
      }
      CollectOne(all, found[i].id.value, found[i].record);
      overlays := overlays[found[i].id.value := found[i].record];
      all := all + [(found[i].id.value, found[i].record)];
    }
    assert found[|found|..] == [] && all + [] == all;
    ok := true;
  }

  lemma TraceStep<I, R>(done: seq<(I, R)>, rounds: seq<Round<I, R>>, r: nat)
    requires r < |rounds|
    ensures var t, next := Trace(rounds[r..]), Trace(rounds[r + 1..]);
            if rounds[r].RoundFailed? then t == ([], Failed)
            else
              var here := Inserted(rounds[r].found);
              if !Readable(rounds[r].found) then t == (here, Failed)
              else if rounds[r].last then t == (here, Finished)
              else t.1 == next.1 && done + t.0 == (done + here) + next.0
  {
    assert rounds[r..][0] == rounds[r] && rounds[r..][1..] == rounds[r + 1..];
  }

  lemma GrowthStep<I, R>(so: seq<nat>, done: seq<(I, R)>, rounds: seq<Round<I, R>>, r: nat)
    requires r < |rounds|
    ensures var g := Growth(done, rounds[r..]);
            if rounds[r].RoundFailed? || !Readable(rounds[r].found) then so + g == so
            else
              var here := Inserted(rounds[r].found);
              so + g == (so + [NewIds(done, here)]) +
                        if rounds[r].last then [] else Growth(done + here, rounds[r + 1..])
  {
    assert rounds[r..][0] == rounds[r] && rounds[r..][1..] == rounds[r + 1..];
  }

  /** `scan_overlay`, reporting overlay nodes: what each round adds is the growth of the map. */
  method ScanOverlay<I(==), R>(rounds: seq<Round<I, R>>)
    returns (o: Outcome, overlays: map<I, R>, increments: seq<nat>)
    ensures overlays == LastWins.Collect(Trace(rounds).0) && o == Trace(rounds).1
    ensures increments == Growth([], rounds)
  {
    hide Trace, Growth, NewIds, LastWins.Collect, Inserted, Readable;
    overlays, increments := map[], [];
    ghost var done: seq<(I, R)> := [];
    ghost var all := Trace(rounds);
    Ends(done, increments, rounds);
    for r := 0 to |rounds|
      invariant overlays == LastWins.Collect(done)
      invariant done + Trace(rounds[r..]).0 == all.0 && Trace(rounds[r..]).1 == all.1
      invariant increments + Growth(done, rounds[r..]) == Growth([], rounds)
    {
      TraceStep(done, rounds, r);
      GrowthStep(increments, done, rounds, r);
      if rounds[r].RoundFailed? {
        assert done + [] == done;
        return Failed, overlays, increments;
      }
      ghost var here := Inserted(rounds[r].found);
      var ok, count;
      count := |overlays|;
      ok, overlays := InsertAll(overlays, rounds[r].found, done);
      if !ok {
        return Failed, overlays, increments;
      }
      NewIdsCounted(done, here);
      increments := increments + [|overlays| - count];
      done := done + here;
      if rounds[r].last {
        assert increments + [] == increments;
        return Finished, overlays, increments;
      }
    }
    Ends(done, increments, rounds);
    o := Searching;
  }

  lemma NewIdsCounted<I, R>(done: seq<(I, R)>, here: seq<(I, R)>)
    ensures NewIds(done, here) == |LastWins.Collect(done + here)| - |LastWins.Collect(done)|
  {
  }

  lemma Ends<I, R>(done: seq<(I, R)>, so: seq<nat>, rounds: seq<Round<I, R>>)
    ensures rounds[0..] == rounds
    ensures LastWins.Collect<I, R>([]) == map[]
    ensures [] + Trace(rounds).0 == Trace(rounds).0
    ensures [] + Growth(done, rounds) == Growth(done, rounds)
    ensures Trace(rounds[|rounds|..]).1 == Searching
    ensures done + Trace(rounds[|rounds|..]).0 == done
    ensures so + Growth(done, rounds[|rounds|..]) == so
  {
  }

  lemma SumCons(n: nat, s: seq<nat>)
    ensures Sum([n] + s) == n + Sum(s)
  {
    assert ([n] + s)[1..] == s;
  }

  lemma TraceCases<I, R>(rounds: seq<Round<I, R>>)
    requires |rounds| > 0 && Trace(rounds).1 != Failed
    ensures rounds[0].Round? && Readable(rounds[0].found)
    ensures rounds[0].last ==> Trace(rounds).0 == Inserted(rounds[0].found)
    ensures !rounds[0].last ==>
              && Trace(rounds[1..]).1 != Failed
              && Trace(rounds).0 == Inserted(rounds[0].found) + Trace(rounds[1..]).0
  {
    hide Inserted, Readable;
  }

  lemma Reassociate<T>(a: seq<T>, b: seq<T>, c: seq<T>)
    ensures a + (b + c) == (a + b) + c
  {
  }

  lemma FirstGrowth<I, R>(done: seq<(I, R)>, rounds: seq<Round<I, R>>)
    requires |rounds| > 0 && rounds[0].Round? && Readable(rounds[0].found)
    ensures var here := Inserted(rounds[0].found);
            Sum(Growth(done, rounds)) ==
            NewIds(done, here) + if rounds[0].last then 0 else Sum(Growth(done + here, rounds[1..]))
  {
    hide NewIds, Inserted, Readable, Sum;
    var n := NewIds(done, Inserted(rounds[0].found));
    var tail := if rounds[0].last then [] else Growth(done + Inserted(rounds[0].found), rounds[1..]);
    assert Growth(done, rounds) == [n] + tail;
    SumCons(n, tail);
    assert Sum([]) == 0 by { EmptySum(); }
  }

  lemma EmptySum()
    ensures Sum([]) == 0
  {
  }

  /** The counts of the rounds add up to what the whole search added. */
  lemma {:induction false} GrowthTelescopes<I, R>(done: seq<(I, R)>, rounds: seq<Round<I, R>>)
    requires Trace(rounds).1 != Failed
    ensures |LastWins.Collect(done)| + Sum(Growth(done, rounds)) ==
            |LastWins.Collect(done + Trace(rounds).0)|
    decreases |rounds|
  {
    if |rounds| == 0 {
      assert done + [] == done;
    } else {
      TraceCases(rounds);
      FirstGrowth(done, rounds);
      hide Trace, Growth, NewIds, LastWins.Collect, Inserted, Readable, Sum;
      var here := Inserted(rounds[0].found);
      NewIdsCounted(done, here);
      if !rounds[0].last {
        Reassociate(done, here, Trace(rounds[1..]).0);
        GrowthTelescopes(done + here, rounds[1..]);
      }
    }
  }

  /** Over any number of rounds with any repetitions, the reported counts sum to the final total, and
      the total is the number of distinct key ids. */
  lemma ReportedCountsSum<I, R>(rounds: seq<Round<I, R>>)
    requires Trace(rounds).1 != Failed
    ensures Sum(Growth([], rounds)) == |LastWins.Collect(Trace(rounds).0)|
                                    == |LastWins.Keys(Trace(rounds).0)|
  {
    var pairs := Trace(rounds).0;
    var none: seq<(I, R)> := [];
    GrowthTelescopes(none, rounds);
    assert none + pairs == pairs && |LastWins.Collect(none)| == 0;
    LastWins.CollectedKeys(pairs);
    assert |LastWins.Collect(pairs)| == |LastWins.Collect(pairs).Keys|;
  }

  /** Each id keeps its most recent record. */
  lemma LatestRecordKept<I, R>(rounds: seq<Round<I, R>>, i: nat)
    requires LastWins.LastOf(Trace(rounds).0, i)
    ensures var pair, overlays := Trace(rounds).0[i], LastWins.Collect(Trace(rounds).0);
            pair.0 in overlays && overlays[pair.0] == pair.1
  {
    LastWins.CollectedValue(Trace(rounds).0, i);
  }

  // ---- what each round brings, and how the search ends ----

  /** The pairs of a round are those of its nodes, one for one and in order, up to the first whose key
      cannot be read. */
  lemma {:induction false} InsertedExact<I, R>(found: seq<Entry<I, R>>)
    ensures var pairs := Inserted(found);
            && |pairs| <= |found|
            && (forall i | 0 <= i < |pairs| :: found[i] == Entry(Some(pairs[i].0), pairs[i].1))
            && (|pairs| < |found| ==> found[|pairs|].id.None?)
  {
    if |found| > 0 && found[0].id.Some? {
      InsertedExact(found[1..]);
      var pairs := Inserted(found);
      assert pairs[1..] == Inserted(found[1..]);
      forall i | 0 <= i < |pairs| ensures found[i] == Entry(Some(pairs[i].0), pairs[i].1) {
        if i > 0 {
          assert found[i] == found[1..][i - 1] && pairs[i] == pairs[1..][i - 1];
        }
      }
    }
  }

  /** A round that fails, or that finds a node whose key cannot be read. */
  predicate Fails<I, R>(round: Round<I, R>) {
    round.RoundFailed? || exists i | 0 <= i < |round.found| :: round.found[i].id.None?
  }

  /** A round after which the search goes on. */
  predicate GoesOn<I, R>(round: Round<I, R>) {
    !Fails(round) && !round.last
  }

  /** The search reaches round i and goes no further. */
  predicate StopsAt<I, R>(rounds: seq<Round<I, R>>, i: int) {
    0 <= i < |rounds| && !GoesOn(rounds[i]) && forall j | 0 <= j < i :: GoesOn(rounds[j])
  }

  lemma FailsOrReads<I, R>(round: Round<I, R>)
    ensures Fails(round) <==> round.RoundFailed? || !Readable(round.found)
  {
    if round.Round? && !Readable(round.found) {
      var i :| 0 <= i < |round.found| && !round.found[i].id.Some?;
      assert round.found[i].id.None?;
    }
  }

  lemma FirstRound<I, R>(rounds: seq<Round<I, R>>)
    requires |rounds| > 0
    ensures GoesOn(rounds[0]) ==> Trace(rounds).1 == Trace(rounds[1..]).1
    ensures !GoesOn(rounds[0]) ==> Trace(rounds).1 == if Fails(rounds[0]) then Failed else Finished
  {
    hide Inserted, Fails, Readable;
    FailsOrReads(rounds[0]);
  }

  /** What the search has come to after i rounds that let it go on. */
  lemma {:induction false} TraceFrom<I, R>(rounds: seq<Round<I, R>>, i: nat)
    requires i <= |rounds| && forall j | 0 <= j < i :: GoesOn(rounds[j])
    ensures Trace(rounds).1 == Trace(rounds[i..]).1
  {
    hide Trace, GoesOn;
    if i == 0 {
      assert rounds[0..] == rounds;
    } else {
      FirstRound(rounds);
      assert forall j | 0 <= j < i - 1 :: rounds[1..][j] == rounds[j + 1];
      TraceFrom(rounds[1..], i - 1);
      assert rounds[1..][i - 1..] == rounds[i..];
    }
  }

  lemma StopsWith<I, R>(rounds: seq<Round<I, R>>, i: nat)
    requires StopsAt(rounds, i)
    ensures Trace(rounds).1 == if Fails(rounds[i]) then Failed else Finished
  {
    hide Trace, GoesOn, Fails;
    TraceFrom(rounds, i);
    FirstRound(rounds[i..]);
  }

  lemma {:induction false} FindStop<I, R>(rounds: seq<Round<I, R>>, from: nat) returns (i: nat)
    requires from <= |rounds| && forall j | 0 <= j < from :: GoesOn(rounds[j])
    ensures i <= |rounds| && (i < |rounds| ==> StopsAt(rounds, i))
    ensures forall j | 0 <= j < i :: GoesOn(rounds[j])
    decreases |rounds| - from
  {
    hide GoesOn;
    if from < |rounds| && GoesOn(rounds[from]) {
      i := FindStop(rounds, from + 1);
    } else {
      i := from;
    }
  }

  /** The search ends with an error or with success exactly if the first round after which it does not go
      on is one that fails, or one that does not; without such a round it is still searching. */
  lemma TraceEndsExactly<I, R>(rounds: seq<Round<I, R>>)
    ensures Trace(rounds).1 == Failed <==> exists i :: StopsAt(rounds, i) && Fails(rounds[i])
    ensures Trace(rounds).1 == Finished <==> exists i :: StopsAt(rounds, i) && !Fails(rounds[i])
    ensures Trace(rounds).1 == Searching <==> forall j | 0 <= j < |rounds| :: GoesOn(rounds[j])
  {
    forall i | StopsAt(rounds, i) ensures Trace(rounds).1 == if Fails(rounds[i]) then Failed else Finished {
      StopsWith(rounds, i);
    }
    var i := FindStop(rounds, 0);
    if i == |rounds| {
      TraceFrom(rounds, i);
      assert Trace(rounds[i..]).1 == Searching;
    }
    hide Trace, GoesOn, Fails;
  }

  /** The search is made of its parts: what the rest brings comes after what the beginning has brought. */
  lemma {:induction false} TraceSplits<I, R>(a: seq<Round<I, R>>, b: seq<Round<I, R>>)
    ensures Trace(a + b) == if Trace(a).1 == Searching then (Trace(a).0 + Trace(b).0, Trace(b).1) else Trace(a)
  {
    hide Inserted, Readable;
    if |a| == 0 {
      assert a + b == b && [] + Trace(b).0 == Trace(b).0;
    } else {
      assert (a + b)[0] == a[0] && (a + b)[1..] == a[1..] + b;
      TraceSplits(a[1..], b);
      if Trace(a).1 == Searching {
        Reassociate(Inserted(a[0].found), Trace(a[1..]).0, Trace(b).0);
      }
    }
  }

  /** One round brings its pairs. */
  lemma TraceOne<I, R>(round: Round<I, R>)
    ensures Trace([round]).0 == if round.RoundFailed? then [] else Inserted(round.found)
  {
    hide Inserted, Readable;
    assert [round][1..] == [];
    if round.Round? {
      assert Inserted(round.found) + [] == Inserted(round.found);
    }
  }

  /** The ids counted as new are those of the round that have not been seen before. */
  lemma NewIdsExact<I, R>(done: seq<(I, R)>, here: seq<(I, R)>)
    ensures NewIds(done, here) == |LastWins.Keys(here) - LastWins.Keys(done)|
  {
    LastWins.CollectedKeys(done);
    LastWins.CollectedKeys(done + here);
    LastWins.KeysAppend(done, here);
    hide LastWins.Collect, LastWins.Keys;
    var seen, now := LastWins.Keys(done), LastWins.Keys(here);
    assert |LastWins.Collect(done)| == |LastWins.Collect(done).Keys|;
    assert |LastWins.Collect(done + here)| == |LastWins.Collect(done + here).Keys|;
    assert seen + now == seen + (now - seen);
  }

  lemma GrowthTail<I, R>(done: seq<(I, R)>, rounds: seq<Round<I, R>>)
    requires |Growth(done, rounds)| > 0
    ensures |rounds| > 0 && rounds[0].Round? && Readable(rounds[0].found)
    ensures Growth(done, rounds)[0] == NewIds(done, Inserted(rounds[0].found))
    ensures Growth(done, rounds)[1..] ==
            if rounds[0].last then [] else Growth(done + Inserted(rounds[0].found), rounds[1..])
  {
    hide NewIds, Inserted, Readable;
  }

  lemma EmptyTrace<I, R>()
    ensures Trace<I, R>([]) == ([], Searching)
  {
  }

  lemma PrefixTrace<I, R>(rounds: seq<Round<I, R>>, r: nat)
    requires 0 < r <= |rounds| && rounds[0].Round? && Readable(rounds[0].found) && !rounds[0].last
    ensures Trace(rounds[..r]).0 == Inserted(rounds[0].found) + Trace(rounds[1..][..r - 1]).0
  {
    hide Inserted, Readable;
    assert rounds[..r][0] == rounds[0] && rounds[..r][1..] == rounds[1..][..r - 1];
  }

  lemma {:induction false} GrowthFrom<I, R>(done: seq<(I, R)>, rounds: seq<Round<I, R>>, r: nat)
    requires r < |Growth(done, rounds)|
    ensures r < |rounds| && rounds[r].Round?
    ensures Growth(done, rounds)[r] == NewIds(done + Trace(rounds[..r]).0, Inserted(rounds[r].found))
    decreases r
  {
    hide Trace, Growth, NewIds, Inserted, Readable;
    GrowthTail(done, rounds);
    if r == 0 {
      EmptyTrace<I, R>();
      assert rounds[..0] == [] && done + [] == done;
    } else {
      var here := Inserted(rounds[0].found);
      assert Growth(done, rounds)[r] == Growth(done, rounds)[1..][r - 1];
      GrowthFrom(done + here, rounds[1..], r - 1);
      PrefixTrace(rounds, r);
      Reassociate(done, here, Trace(rounds[1..][..r - 1]).0);
      assert rounds[1..][r - 1] == rounds[r];
    }
  }

  /** The count reported for a round is the number of ids it finds that no earlier round has found. */
  lemma GrowthAt<I, R>(rounds: seq<Round<I, R>>, r: nat)
    requires r < |Growth<I, R>([], rounds)|
    ensures r < |rounds| && rounds[r].Round?
    ensures Growth<I, R>([], rounds)[r] ==
            |LastWins.Keys(Inserted(rounds[r].found)) - LastWins.Keys(Trace(rounds[..r]).0)|
  {
    var none: seq<(I, R)> := [];
    GrowthFrom(none, rounds, r);
    assert none + Trace(rounds[..r]).0 == Trace(rounds[..r]).0;
    NewIdsExact(Trace(rounds[..r]).0, Inserted(rounds[r].found));
    hide NewIds, Trace, Growth, Inserted;
  }

  /** A count is reported for each round up to the one that ends the search, and for that one if it does
      not fail. */
  lemma {:induction false} GrowthLength<I, R>(done: seq<(I, R)>, rounds: seq<Round<I, R>>)
    ensures var n := |Growth(done, rounds)|;
            && n <= |rounds|
            && (forall j | 0 <= j < n - 1 :: GoesOn(rounds[j]))
            && (n > 0 ==> !Fails(rounds[n - 1]))
            && (n < |rounds| ==> Fails(rounds[n]) || (n > 0 && !GoesOn(rounds[n - 1])))
    decreases |rounds|
  {
    if |rounds| > 0 {
      FailsOrReads(rounds[0]);
      hide NewIds, Inserted, Fails, Readable;
      if GoesOn(rounds[0]) {
        var rest, n := rounds[1..], |Growth(done, rounds)|;
        assert forall j | 0 <= j < |rest| :: rest[j] == rounds[j + 1];
        GrowthLength(done + Inserted(rounds[0].found), rest);
        forall j | 0 <= j < n - 1 ensures GoesOn(rounds[j]) {
          assert j > 0 ==> GoesOn(rest[j - 1]);
        }
      }
    }
  }

  // ---- the report of new DHT nodes ----

  /** A known node: whether its key can be read, whether it answers a ping, and its address if that can
      be read. */
  datatype Node<I, A> = Node(id: I, keyReadable: bool, answers: bool, address: Option<A>)

  /** Is this node worth printing? */
  predicate IsNew<I(==), A>(n: Node<I, A>, presets: seq<I>) {
    n.id !in presets && n.answers
  }

  /** A node that ends the report with an error. */
  predicate Spoils<I(==), A>(n: Node<I, A>, presets: seq<I>) {
    n.id !in presets && (!n.keyReadable || (n.answers && n.address.None?))
  }

  /** The new nodes up to the first that spoils the report. */
  function NewNodes<I(==), A>(known: seq<Node<I, A>>, presets: seq<I>): seq<Node<I, A>> {
    if |known| == 0 || Spoils(known[0], presets) then []
    else (if IsNew(known[0], presets) then [known[0]] else []) + NewNodes(known[1..], presets)
  }

  predicate NoneSpoils<I(==), A>(known: seq<Node<I, A>>, presets: seq<I>) {
    forall i | 0 <= i < |known| :: !Spoils(known[i], presets)
  }

  /** What gets printed: nothing at all unless more nodes are known than were preset. */
  function Reported<I(==), A>(known: seq<Node<I, A>>, presets: seq<I>): seq<Node<I, A>> {
    if |known| > |presets| then NewNodes(known, presets) else []
  }

  /** The report at the end of `scan`. */
  method Report<I(==), A>(known: seq<Node<I, A>>, presets: seq<I>)
    returns (ok: bool, printed: seq<Node<I, A>>, count: nat)
    ensures printed == Reported(known, presets) && count == |printed|
    ensures ok <==>
            || |known| <= |presets|
            || forall i | 0 <= i < |known| && known[i].id !in presets ::
                 known[i].keyReadable && (known[i].answers ==> known[i].address.Some?)
  {
    printed, count := [], 0;
    if |known| > |presets| {
      assert known[0..] == known;
      for i := 0 to |known|
        invariant printed + NewNodes(known[i..], presets) == NewNodes(known, presets)
        invariant forall j | 0 <= j < i :: !Spoils(known[j], presets)
        invariant count == |printed|
      {
        var node := known[i];
        assert known[i..][0] == node && known[i..][1..] == known[i + 1..];
        var skip := false;
        for j := 0 to |presets|
          invariant !skip && forall k | 0 <= k < j :: presets[k] != node.id
        {
          if presets[j] == node.id {
            skip := true;
            break;
          }
        }
        if skip {
          continue;
        }
        if !node.keyReadable {
          assert printed + [] == printed;
          return false, printed, count;
        }
        if !node.answers {
          continue;
        }
        if node.address.None? {
          assert printed + [] == printed;
          return false, printed, count;
        }
        count := count + 1;
        printed := printed + [node];
      }
      assert known[|known|..] == [] && printed + [] == printed;
    }
    ok := true;
  }

  lemma {:induction false} NewNodesExact<I, A>(known: seq<Node<I, A>>, presets: seq<I>, n: Node<I, A>)
    requires NoneSpoils(known, presets)
    ensures n in NewNodes(known, presets) <==> n in known && n.id !in presets && n.answers
  {
    if |known| > 0 {
      NewNodesExact(known[1..], presets, n);
      assert known == [known[0]] + known[1..];
    }
  }

  function Ids<I(==), A>(known: seq<Node<I, A>>): (ids: seq<I>)
    ensures |ids| == |known|
    ensures forall i | 0 <= i < |known| :: ids[i] == known[i].id
  {
    seq(|known|, i requires 0 <= i < |known| => known[i].id)
  }

  predicate NoDup<I(==)>(l: seq<I>) {
    forall i, j | 0 <= i < j < |l| :: l[i] != l[j]
  }

  function SetOf<I(==)>(l: seq<I>): set<I> {
    set x | x in l
  }

  lemma {:induction false} SizeOfSet<I>(l: seq<I>)
    requires NoDup(l)
    ensures |SetOf(l)| == |l|
  {
    if |l| == 0 {
    } else {
      SizeOfSet(l[1..]);
      assert SetOf(l) == {l[0]} + SetOf(l[1..]);
      assert l[0] !in SetOf(l[1..]);
    }
  }

  /** The count in the guard stands for the right question as long as every preset is among the known
      nodes and nothing is listed twice: then more nodes than presets are known exactly if some known
      node is no preset. */
  lemma GuardExact<I, A>(known: seq<Node<I, A>>, presets: seq<I>)
    requires NoDup(presets) && NoDup(Ids(known))
    requires forall i | 0 <= i < |presets| :: presets[i] in Ids(known)
    ensures |known| > |presets| <==> exists i | 0 <= i < |known| :: known[i].id !in presets
  {
    var ids := Ids(known);
    SizeOfSet(presets);
    SizeOfSet(ids);
    assert SetOf(presets) <= SetOf(ids);
    LastWins.SubsetSize(SetOf(presets), SetOf(ids));
    if forall i | 0 <= i < |known| :: known[i].id in presets {
      forall x | x in SetOf(ids) ensures x in SetOf(presets) {
        var i :| 0 <= i < |ids| && ids[i] == x;
        assert known[i].id in presets;
      }
      assert SetOf(ids) == SetOf(presets);
    } else {
      var i :| 0 <= i < |known| && known[i].id !in presets;
      assert ids[i] in SetOf(ids) && ids[i] !in SetOf(presets);
    }
  }

  // ---- the order of the report ----

  lemma {:induction false} NewNodesAppend<I, A>(a: seq<Node<I, A>>, b: seq<Node<I, A>>, presets: seq<I>)
    requires NoneSpoils(a, presets)
    ensures NewNodes(a + b, presets) == NewNodes(a, presets) + NewNodes(b, presets)
  {
    if |a| == 0 {
      assert a + b == b;
    } else {
      assert !Spoils(a[0], presets) && (a + b)[0] == a[0] && (a + b)[1..] == a[1..] + b;
      assert forall i | 0 <= i < |a[1..]| :: a[1..][i] == a[i + 1];
      hide Spoils, IsNew;
      NewNodesAppend(a[1..], b, presets);
    }
  }

  lemma NewNodesOne<I, A>(n: Node<I, A>, presets: seq<I>)
    requires !Spoils(n, presets)
    ensures NewNodes([n], presets) == if IsNew(n, presets) then [n] else []
  {
    hide Spoils, IsNew;
    assert NewNodes([n][1..], presets) == [];
  }

  /** The positions of the nodes worth printing. */
  function NewPositions<I(==), A>(known: seq<Node<I, A>>, presets: seq<I>): set<nat> {
    set i: nat | i < |known| && IsNew(known[i], presets)
  }

  /** When no node spoils the report, the new nodes are printed in the order in which they are known, each
      position once: a new node at position i is printed after the new ones before it, and there are as
      many lines as new positions. */
  lemma {:induction false} NewNodesInOrder<I, A>(known: seq<Node<I, A>>, presets: seq<I>, i: nat)
    requires NoneSpoils(known, presets) && i < |known| && IsNew(known[i], presets)
    ensures var before, all := NewNodes(known[..i], presets), NewNodes(known, presets);
            |before| < |all| && before == all[..|before|] && all[|before|] == known[i]
    ensures |NewNodes(known, presets)| == |NewPositions(known, presets)|
  {
    hide Spoils, NewNodes, NewPositions, IsNew;
    assert known == known[..i] + ([known[i]] + known[i + 1..]);
    NewNodesAppend(known[..i], [known[i]] + known[i + 1..], presets);
    assert !Spoils(known[i], presets) && NoneSpoils([known[i]], presets);
    NewNodesAppend([known[i]], known[i + 1..], presets);
    NewNodesOne(known[i], presets);
    NewNodesCounted(known, presets);
  }

  lemma {:induction false} NewNodesCounted<I, A>(known: seq<Node<I, A>>, presets: seq<I>)
    requires NoneSpoils(known, presets)
    ensures |NewNodes(known, presets)| == |NewPositions(known, presets)|
  {
    hide Spoils, IsNew;
    if |known| == 0 {
      assert NewPositions(known, presets) == {};
    } else {
      var front, n := known[..|known| - 1], known[|known| - 1];
      assert known == front + [n] && !Spoils(n, presets);
      NewNodesCounted(front, presets);
      NewNodesAppend(front, [n], presets);
      NewNodesOne(n, presets);
      hide NewNodes, NewPositions;
      PositionsStep(front, n, presets);
    }
  }

  lemma PositionsStep<I, A>(front: seq<Node<I, A>>, n: Node<I, A>, presets: seq<I>)
    ensures |NewPositions(front + [n], presets)| ==
            |NewPositions(front, presets)| + if IsNew(n, presets) then 1 else 0
  {
    hide IsNew;
    var last: nat := |front|;
    assert NewPositions(front + [n], presets) ==
           NewPositions(front, presets) + if IsNew(n, presets) then {last} else {};
    assert last !in NewPositions(front, presets);
  }

  lemma {:induction false} NewNodeIsKnown<I, A>(known: seq<Node<I, A>>, presets: seq<I>, k: nat) returns (i: nat)
    requires k < |NewNodes(known, presets)|
    ensures i < |known| && known[i] == NewNodes(known, presets)[k]
  {
    hide Spoils, IsNew;
    if IsNew(known[0], presets) && k == 0 {
      i := 0;
    } else {
      var j := NewNodeIsKnown(known[1..], presets, if IsNew(known[0], presets) then k - 1 else k);
      i := j + 1;
    }
  }

  /** No node is printed twice unless it is known twice, whatever spoils the report. */
  lemma {:induction false} PrintedOnce<I, A>(known: seq<Node<I, A>>, presets: seq<I>)
    requires NoDup(Ids(known))
    ensures NoDup(Ids(NewNodes(known, presets)))
  {
    hide Spoils, IsNew;
    if |known| > 0 {
      var rest := NewNodes(known[1..], presets);
      assert forall i | 0 <= i < |known[1..]| :: Ids(known[1..])[i] == Ids(known)[i + 1];
      PrintedOnce(known[1..], presets);
      forall k | 0 <= k < |rest| ensures rest[k].id != known[0].id {
        var i := NewNodeIsKnown(known[1..], presets, k);
        assert Ids(known)[0] != Ids(known)[i + 1];
      }
    }
  }

  // ---- when new nodes go unreported ----

  /** The known nodes before the first that spoils the report. */
  function BeforeSpoiler<I(==), A>(known: seq<Node<I, A>>, presets: seq<I>): seq<Node<I, A>> {
    if |known| == 0 || Spoils(known[0], presets) then []
    else [known[0]] + BeforeSpoiler(known[1..], presets)
  }

  lemma {:induction false} NewNodesBeforeSpoiler<I, A>(known: seq<Node<I, A>>, presets: seq<I>, n: Node<I, A>)
    ensures n in NewNodes(known, presets) <==> n in BeforeSpoiler(known, presets) && IsNew(n, presets)
  {
    if |known| > 0 && !Spoils(known[0], presets) {
      NewNodesBeforeSpoiler(known[1..], presets, n);
    }
  }

  /** They are the longest beginning of the list in which no node spoils the report, and the report prints
      the new ones among them. */
  lemma {:induction false} BeforeSpoilerExact<I, A>(known: seq<Node<I, A>>, presets: seq<I>)
    ensures var before := BeforeSpoiler(known, presets);
            && before <= known && NoneSpoils(before, presets)
            && (|before| < |known| ==> Spoils(known[|before|], presets))
            && NewNodes(known, presets) == NewNodes(before, presets)
  {
    hide Spoils, IsNew;
    if |known| > 0 && !Spoils(known[0], presets) {
      BeforeSpoilerExact(known[1..], presets);
      var rest := BeforeSpoiler(known[1..], presets);
      assert known == [known[0]] + known[1..] && ([known[0]] + rest)[1..] == rest;
      assert known[1..][..|rest|] == rest;
    }
  }

  lemma {:induction false} NothingSpoiled<I, A>(known: seq<Node<I, A>>, presets: seq<I>)
    requires NoneSpoils(known, presets)
    ensures BeforeSpoiler(known, presets) == known
  {
    if |known| > 0 {
      NothingSpoiled(known[1..], presets);
      assert known == [known[0]] + known[1..];
    }
  }

  predicate AnyNew<I(==), A>(known: seq<Node<I, A>>, presets: seq<I>) {
    exists i | 0 <= i < |known| :: IsNew(known[i], presets)
  }

  /** Every node that is known, no preset and answers is printed. */
  ghost predicate AllNewReported<I, A>(known: seq<Node<I, A>>, presets: seq<I>) {
    forall i | 0 <= i < |known| && IsNew(known[i], presets) :: known[i] in Reported(known, presets)
  }

  /** The report is complete exactly if there is nothing new, or more nodes are known than were preset
      and every new node stands before the first that spoils the report. */
  lemma AllNewReportedExact<I, A>(known: seq<Node<I, A>>, presets: seq<I>)
    ensures AllNewReported(known, presets) <==>
            || !AnyNew(known, presets)
            || (|known| > |presets| &&
                forall i | 0 <= i < |known| && IsNew(known[i], presets) ::
                  known[i] in BeforeSpoiler(known, presets))
  {
    forall i | 0 <= i < |known| && IsNew(known[i], presets)
      ensures known[i] in NewNodes(known, presets) <==> known[i] in BeforeSpoiler(known, presets) {
      NewNodesBeforeSpoiler(known, presets, known[i]);
    }
    hide NewNodes, BeforeSpoiler, IsNew;
  }

  /** When all keys and addresses can be read, it is complete exactly if the guard holds or there is
      nothing new. */
  lemma CompleteUnlessGuarded<I, A>(known: seq<Node<I, A>>, presets: seq<I>)
    requires NoneSpoils(known, presets)
    ensures AllNewReported(known, presets) <==> |known| > |presets| || !AnyNew(known, presets)
  {
    AllNewReportedExact(known, presets);
    NothingSpoiled(known, presets);
  }

  /** A preset listed twice is enough: of the two known nodes one is no preset and answers, but no more
      nodes are known than presets were listed, and it is not printed. */
  lemma NewNodeUnreported()
    ensures var known := [Node(0, true, true, Some(0)), Node(2, true, true, Some(0))];
            var presets := [0, 0];
            && NoneSpoils(known, presets) && IsNew(known[1], presets)
            && Reported(known, presets) == [] && !AllNewReported(known, presets)
  {
    var known := [Node(0, true, true, Some(0)), Node(2, true, true, Some(0))];
    assert IsNew(known[1], [0, 0]) && known[1] !in Reported(known, [0, 0]);
  }
}
