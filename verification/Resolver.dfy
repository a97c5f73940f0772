/** The work list of the ADNL resolver: search, refresh when the sweep is over, probe one peer, remove
    it in place or step past it. The network is an adversary that fixes every answer in advance. */
module Resolver {
  import opened Wrappers
  import opened Octets
  import Base64

  /** What adding a DHT node as a peer gives: its key, a refusal, or an error. */
  datatype Peer<K> = Added(key: K) | Rejected | Broken

  datatype Known<K> = Unavailable | Listed(peers: seq<Peer<K>>)

  datatype Answer = Responsive | Unresponsive | ProbeError

  /** One turn of the loop, as the network answers it. `known` is looked at only if the turn begins a
      new sweep, `answer` only if a peer is probed. */
  datatype Turn<K> = Turn(found: bool, known: Known<K>, answer: Answer)

  datatype Outcome = Searching | Found | NoGoodPeers | Failed | Panicked

  /** A completed probe. */
  datatype Probe<K> = Probe(peer: K, answered: bool)

  datatype State<K> = State(nodes: seq<K>, badNodes: seq<K>, index: nat, log: seq<Probe<K>>)

  // ---- the loop ----

  /** The keys of the listed peers that are not known to be bad, up to the first error. */
  function Admitted<K(==)>(peers: seq<Peer<K>>, bad: seq<K>): seq<K> {
    if |peers| == 0 || peers[0].Broken? then []
    else if peers[0].Added? && peers[0].key !in bad then [peers[0].key] + Admitted(peers[1..], bad)
    else Admitted(peers[1..], bad)
  }

  predicate AnyBroken<K>(peers: seq<Peer<K>>) {
    exists i | 0 <= i < |peers| :: peers[i].Broken?
  }

  predicate Valid<K>(s: State<K>) {
    s.index <= |s.nodes|
  }

  function Refresh<K(==)>(s: State<K>, known: Known<K>): (r: (State<K>, Outcome))
    ensures Valid(r.0) && (r.1 == Searching ==> 0 == r.0.index < |r.0.nodes|)
  {
    if known.Unavailable? then (s.(nodes := [], index := 0), Failed)
    else
      var nodes := Admitted(known.peers, s.badNodes);
      if AnyBroken(known.peers) then (s.(nodes := nodes, index := 0), Failed)
      else if |nodes| == 0 then (s.(nodes := [], index := 0), NoGoodPeers)
      else (s.(nodes := nodes, index := 0), Searching)
  }

  function ProbeAt<K>(s: State<K>, answer: Answer): (r: (State<K>, Outcome))
    requires s.index < |s.nodes|
    ensures Valid(r.0)
  {
    var peer := s.nodes[s.index];
    match answer
    case ProbeError => (s, Failed)
    case Unresponsive =>
      (State(s.nodes[..s.index] + s.nodes[s.index + 1..], s.badNodes + [peer], s.index,
             s.log + [Probe(peer, false)]), Searching)
    case Responsive => (s.(index := s.index + 1, log := s.log + [Probe(peer, true)]), Searching)
  }

  function Step<K(==)>(s: State<K>, t: Turn<K>): (r: (State<K>, Outcome))
    requires Valid(s)
    ensures Valid(r.0)
  {
    if t.found then (s, Found)
    else if s.index < |s.nodes| then ProbeAt(s, t.answer)
    else
      var reloaded := Refresh(s, t.known);
      if reloaded.1 == Searching then ProbeAt(reloaded.0, t.answer) else reloaded
  }

  function Run<K(==)>(s: State<K>, script: seq<Turn<K>>): (r: (State<K>, Outcome))
    requires Valid(s)
    ensures Valid(r.0)
    decreases |script|
  {
    if |script| == 0 then (s, Searching)
    else
      var next := Step(s, script[0]);
      if next.1 == Searching then Run(next.0, script[1..]) else next
  }

  /** The wanted id: base64 text, of which the first 32 bytes count. Slicing a shorter byte string
      panics. */
  function WantedId(text: string): Result<Key, Outcome> {
    var b := Base64.Decode(text);
    if b.None? then Failure(Failed)
    else if |b.value| < 32 then Failure(Panicked)
    else Success(b.value[..32])
  }

  predicate AllAdded<K>(presets: seq<Peer<K>>) {
    forall i | 0 <= i < |presets| :: presets[i].Added?
  }

  function PresetKeys<K>(presets: seq<Peer<K>>): (keys: seq<K>)
    requires AllAdded(presets)
    ensures |keys| == |presets|
    ensures forall i | 0 <= i < |presets| :: presets[i] == Added(keys[i])
  {
    seq(|presets|, i requires 0 <= i < |presets| => presets[i].key)
  }

  function Start<K>(presets: seq<Peer<K>>): State<K>
    requires AllAdded(presets)
  {
    State(PresetKeys(presets), [], 0, [])
  }

  lemma AdmittedStep<K>(nodes: seq<K>, peers: seq<Peer<K>>, i: nat, bad: seq<K>)
    requires i < |peers|
    ensures nodes + Admitted(peers[i..], bad) ==
            if peers[i].Broken? then nodes
            else if peers[i].Added? && peers[i].key !in bad then
              nodes + [peers[i].key] + Admitted(peers[i + 1..], bad)
            else nodes + Admitted(peers[i + 1..], bad)
  {
    assert peers[i..][0] == peers[i] && peers[i..][1..] == peers[i + 1..];
    assert nodes + [] == nodes;
  }

  // ---- the imperative resolver ----

  class Resolver<K(==)> {
    var nodes: seq<K>
    var badNodes: seq<K>
    var index: nat
    var log: seq<Probe<K>>

    ghost function Abs(): State<K>
      reads this
    {
      State(nodes, badNodes, index, log)
    }

    constructor ()
      ensures Abs() == State([], [], 0, [])
    {
      nodes, badNodes, index, log := [], [], 0, [];
    }

    /** The presets: unlike later peers, one that is refused is an error. */
    method AddPresets(presets: seq<Peer<K>>) returns (ok: bool)
      requires nodes == []
      modifies this`nodes
      ensures ok <==> AllAdded(presets)
      ensures ok ==> nodes == PresetKeys(presets)
    {
      for i := 0 to |presets|
        invariant |nodes| == i
        invariant forall j | 0 <= j < i :: presets[j].Added? && nodes[j] == presets[j].key
      {
        if !presets[i].Added? {
          return false;
        }
        nodes := nodes + [presets[i].key];
      }
      ok := true;
    }

    method RefreshNodes(known: Known<K>) returns (o: Outcome)
      modifies this`nodes, this`index
      ensures (Abs(), o) == Refresh(old(Abs()), known)
    {
      nodes, index := [], 0;
      if known.Unavailable? {
        return Failed;
      }
      var peers := known.peers;
      for i := 0 to |peers|
        invariant index == 0
        invariant nodes + Admitted(peers[i..], badNodes) == Admitted(peers, badNodes)
        invariant forall j | 0 <= j < i :: !peers[j].Broken?
      {
        AdmittedStep(nodes, peers, i, badNodes);
        if peers[i].Broken? {
          return Failed;
        }
        if peers[i].Added? && peers[i].key !in badNodes {
          nodes := nodes + [peers[i].key];
        }
      }
      assert nodes + Admitted(peers[|peers|..], badNodes) == nodes;
      o := if |nodes| == 0 then NoGoodPeers else Searching;
    }

    /** The body of the loop. */
    method TakeTurn(turn: Turn<K>) returns (o: Outcome)
      requires Valid(Abs())
      modifies this
      ensures (Abs(), o) == Step(old(Abs()), turn)
    {
      hide Admitted, Refresh;
      if turn.found {
        return Found;
      }
      if index >= |nodes| {
        o := RefreshNodes(turn.known);
        if o != Searching {
          return;
        }
      }
      match turn.answer
      case ProbeError =>
        o := Failed;
      case Unresponsive =>
        log := log + [Probe(nodes[index], false)];
        badNodes := badNodes + [nodes[index]];
        nodes := nodes[..index] + nodes[index + 1..];
        o := Searching;
      case Responsive =>
        log := log + [Probe(nodes[index], true)];
        index := index + 1;
        o := Searching;
    }

    /** The loop of `scan`, for as many turns as the script has; a run that is still searching at its
        end is the beginning of a longer one. */
    method Search(script: seq<Turn<K>>) returns (o: Outcome)
      requires Valid(Abs())
      modifies this
      ensures Valid(Abs()) && (Abs(), o) == Run(old(Abs()), script)
    {
      hide Step;
      ghost var start := Abs();
      for i := 0 to |script|
        invariant Valid(Abs()) && Run(start, script) == Run(Abs(), script[i..])
      {
        assert script[i..][0] == script[i] && script[i..][1..] == script[i + 1..];
        o := TakeTurn(script[i]);
        if o != Searching {
          return;
        }
      }
      o := Searching;
    }

    /** `scan`: the presets, then the wanted id, then the loop. */
    method Scan(presets: seq<Peer<K>>, idText: string, script: seq<Turn<K>>) returns (o: Outcome)
      requires Abs() == State([], [], 0, [])
      modifies this
      ensures !AllAdded(presets) ==> o == Failed && log == []
      ensures AllAdded(presets) && WantedId(idText).Failure? ==> o == WantedId(idText).error && log == []
      ensures AllAdded(presets) && WantedId(idText).Success? ==>
                (Abs(), o) == Run(Start(presets), script)
    {
      var added := AddPresets(presets);
      if !added {
        return Failed;
      }
      var id := WantedId(idText);
      if id.Failure? {
        return id.error;
      }
      o := Search(script);
    }
  }

  /** An id is taken from exactly the texts that spell, with or without padding, 32 bytes or more of
      which it is the beginning: more bytes are silently cut. */
  lemma WantedIdExact(text: string, id: Key)
    ensures WantedId(text) == Success(id) <==>
            exists b: Bytes :: Base64.Spells(text, b) && |b| >= 32 && b[..32] == id
  {
    forall b: Bytes ensures Base64.Decode(text) == Some(b) <==> Base64.Spells(text, b) {
      Base64.DecodeAnyExact(text, b);
    }
    hide Base64.Decode, Base64.Spells;
  }

  /** And the resolver is brought down by exactly the texts that spell fewer than 32. */
  lemma WantedIdPanics(text: string)
    ensures WantedId(text) == Failure(Panicked) <==>
            exists b: Bytes :: Base64.Spells(text, b) && |b| < 32
    ensures WantedId("") == Failure(Panicked)
  {
    forall b: Bytes ensures Base64.Decode(text) == Some(b) <==> Base64.Spells(text, b) {
      Base64.DecodeAnyExact(text, b);
    }
    hide Base64.Spells;
  }

  /** Text that spells no bytes at all is refused with an error. */
  lemma WantedIdRefused(text: string)
    ensures WantedId(text) == Failure(Failed) <==> !exists b: Bytes :: Base64.Spells(text, b)
  {
    forall b: Bytes ensures Base64.Decode(text) == Some(b) <==> Base64.Spells(text, b) {
      Base64.DecodeAnyExact(text, b);
    }
    hide Base64.Decode, Base64.Spells;
    if Base64.Decode(text).Some? {
      assert Base64.Spells(text, Base64.Decode(text).value);
    }
  }

  // ---- one sweep is a stable partition ----

  /** The peers of a log with the given answer, in order. */
  function Peers<K>(log: seq<Probe<K>>, answered: bool): seq<K> {
    if |log| == 0 then []
    else if log[0].answered == answered then [log[0].peer] + Peers(log[1..], answered)
    else Peers(log[1..], answered)
  }

  /** Turns in which a peer is probed and answers or not. */
  predicate Quiet<K>(script: seq<Turn<K>>) {
    forall i | 0 <= i < |script| :: !script[i].found && script[i].answer != ProbeError
  }

  /** The list `l` probed in order, with the answers of the script. */
  function Probed<K>(l: seq<K>, script: seq<Turn<K>>): (log: seq<Probe<K>>)
    requires |script| <= |l|
    ensures |log| == |script|
    ensures forall i | 0 <= i < |script| :: log[i] == Probe(l[i], script[i].answer == Responsive)
  {
    if |script| == 0 then []
    else [Probe(l[0], script[0].answer == Responsive)] + Probed(l[1..], script[1..])
  }

  lemma SweepStep<K>(kept: seq<K>, l: seq<K>, bad: seq<K>, log: seq<Probe<K>>, t: Turn<K>)
    requires |l| > 0 && !t.found && t.answer != ProbeError
    ensures var p := Probe(l[0], t.answer == Responsive);
            Step(State(kept + l, bad, |kept|, log), t) ==
            (if p.answered then State((kept + [l[0]]) + l[1..], bad, |kept| + 1, log + [p])
             else State(kept + l[1..], bad + [l[0]], |kept|, log + [p]), Searching)
  {
    var s := State(kept + l, bad, |kept|, log);
    assert s.nodes[s.index] == l[0];
    assert (kept + [l[0]]) + l[1..] == s.nodes;
    assert s.nodes[..s.index] + s.nodes[s.index + 1..] == kept + l[1..];
  }

  /** Where a sweep stands that has kept `kept`, had `l` before it and has spent the script. */
  function SweepEnd<K>(kept: seq<K>, l: seq<K>, bad: seq<K>, log: seq<Probe<K>>,
                       script: seq<Turn<K>>): State<K>
    requires |script| <= |l|
  {
    var done := Probed(l, script);
    State(kept + Peers(done, true) + l[|script|..], bad + Peers(done, false),
          |kept| + |Peers(done, true)|, log + done)
  }

  lemma SweepEndStep<K>(kept: seq<K>, l: seq<K>, bad: seq<K>, log: seq<Probe<K>>,
                        script: seq<Turn<K>>)
    requires 0 < |script| <= |l|
    ensures var p := Probe(l[0], script[0].answer == Responsive);
            SweepEnd(kept, l, bad, log, script) ==
            if p.answered then SweepEnd(kept + [l[0]], l[1..], bad, log + [p], script[1..])
            else SweepEnd(kept, l[1..], bad + [l[0]], log + [p], script[1..])
  {
    var p := Probe(l[0], script[0].answer == Responsive);
    var done := Probed(l[1..], script[1..]);
    assert Probed(l, script) == [p] + done && ([p] + done)[1..] == done;
    assert l[1..][|script[1..]|..] == l[|script|..];
    assert (log + [p]) + done == log + ([p] + done);
    if p.answered {
      assert (kept + [l[0]]) + Peers(done, true) == kept + ([p.peer] + Peers(done, true));
    } else {
      assert (bad + [l[0]]) + Peers(done, false) == bad + ([p.peer] + Peers(done, false));
    }
  }

  lemma {:induction false} SweepFrom<K>(kept: seq<K>, l: seq<K>, bad: seq<K>, log: seq<Probe<K>>,
                                        script: seq<Turn<K>>)
    requires Quiet(script) && |script| <= |l|
    ensures Run(State(kept + l, bad, |kept|, log), script) ==
            (SweepEnd(kept, l, bad, log, script), Searching)
    decreases |script|
  {
    if |script| == 0 {
      assert kept + [] + l[0..] == kept + l && bad + [] == bad && log + [] == log;
    } else {
      hide Step, SweepEnd;
      var p := Probe(l[0], script[0].answer == Responsive);
      SweepStep(kept, l, bad, log, script[0]);
      SweepEndStep(kept, l, bad, log, script);
      if p.answered {
        SweepFrom(kept + [l[0]], l[1..], bad, log + [p], script[1..]);
      } else {
        SweepFrom(kept, l[1..], bad + [l[0]], log + [p], script[1..]);
      }
    }
  }

  /** However far a sweep over the list `l` has come: the peers are probed in order, each position
      once; those that answered lead the list, the rest of `l` follows untouched, and those that did
      not answer are appended to the bad ones. */
  lemma SweepIsStablePartition<K>(s: State<K>, script: seq<Turn<K>>)
    requires s.index == 0 && Quiet(script) && |script| <= |s.nodes|
    ensures var done := Probed(s.nodes, script);
            Run(s, script) ==
            (State(Peers(done, true) + s.nodes[|script|..], s.badNodes + Peers(done, false),
                   |Peers(done, true)|, s.log + done), Searching)
  {
    SweepFrom([], s.nodes, s.badNodes, s.log, script);
    assert [] + s.nodes == s.nodes;
    assert [] + Peers(Probed(s.nodes, script), true) == Peers(Probed(s.nodes, script), true);
  }

  lemma {:induction false} PeersConserved<K>(log: seq<Probe<K>>)
    ensures multiset(Peers(log, true)) + multiset(Peers(log, false)) ==
            multiset(seq(|log|, i requires 0 <= i < |log| => log[i].peer))
  {
    var all := seq(|log|, i requires 0 <= i < |log| => log[i].peer);
    if |log| == 0 {
    } else {
      PeersConserved(log[1..]);
      var rest := seq(|log[1..]|, i requires 0 <= i < |log[1..]| => log[1..][i].peer);
      assert all == [log[0].peer] + rest;
    }
  }

  /** A whole sweep moves peers between the two lists and neither loses nor invents one. */
  lemma SweepConserves<K>(s: State<K>, script: seq<Turn<K>>)
    requires s.index == 0 && Quiet(script) && |script| == |s.nodes|
    ensures var t := Run(s, script).0;
            && t.index == |t.nodes|
            && multiset(t.nodes) + multiset(t.badNodes) == multiset(s.nodes) + multiset(s.badNodes)
  {
    SweepIsStablePartition(s, script);
    var done := Probed(s.nodes, script);
    PeersConserved(done);
    assert seq(|done|, i requires 0 <= i < |done| => done[i].peer) == s.nodes;
    assert Peers(done, true) + s.nodes[|script|..] == Peers(done, true);
  }

  // ---- whole runs ----

  predicate NoDup<K(==)>(l: seq<K>) {
    forall i, j | 0 <= i < j < |l| :: l[i] != l[j]
  }

  predicate Disjoint<K(==)>(a: seq<K>, b: seq<K>) {
    forall i | 0 <= i < |a| :: a[i] !in b
  }

  predicate Within<K(==)>(l: seq<K>, universe: set<K>) {
    forall i | 0 <= i < |l| :: l[i] in universe
  }

  /** The keys the listed peers bring. */
  function Keys<K(==)>(peers: seq<Peer<K>>): seq<K> {
    Admitted(peers, [])
  }

  /** Every list of known peers in the script is free of duplicates and drawn from `universe`. */
  predicate Listings<K(==)>(script: seq<Turn<K>>, universe: set<K>) {
    forall i | 0 <= i < |script| && script[i].known.Listed? ::
      NoDup(Keys(script[i].known.peers)) && Within(Keys(script[i].known.peers), universe)
  }

  /** After a probe without an answer the peer is never probed again. */
  predicate NoReprobe<K(==)>(log: seq<Probe<K>>) {
    forall i, j | 0 <= i < j < |log| && !log[i].answered :: log[i].peer != log[j].peer
  }

  predicate Inv<K(==)>(s: State<K>, universe: set<K>) {
    && Valid(s)
    && NoDup(s.nodes) && NoDup(s.badNodes) && Disjoint(s.nodes, s.badNodes)
    && Within(s.nodes, universe) && Within(s.badNodes, universe)
    && s.badNodes == Peers(s.log, false)
    && NoReprobe(s.log)
  }

  lemma {:induction false} AdmittedFrom<K>(peers: seq<Peer<K>>, bad: seq<K>, k: K)
    requires k in Admitted(peers, bad)
    ensures k in Keys(peers) && k !in bad
  {
    if k in Admitted(peers[1..], bad) {
      AdmittedFrom(peers[1..], bad, k);
    }
  }

  lemma NoDupTail<K>(l: seq<K>)
    requires |l| > 0 && NoDup(l)
    ensures NoDup(l[1..]) && l[0] !in l[1..]
  {
    forall i | 0 <= i < |l[1..]| ensures l[1..][i] != l[0] {
      assert l[1..][i] == l[i + 1];
    }
  }

  lemma {:induction false} AdmittedNoDup<K>(peers: seq<Peer<K>>, bad: seq<K>)
    requires NoDup(Keys(peers))
    ensures NoDup(Admitted(peers, bad))
  {
    if |peers| == 0 || peers[0].Broken? {
    } else {
      if peers[0].Added? {
        NoDupTail(Keys(peers));
        assert Keys(peers)[1..] == Keys(peers[1..]);
        if peers[0].key in Admitted(peers[1..], bad) {
          AdmittedFrom(peers[1..], bad, peers[0].key);
        }
      }
      AdmittedNoDup(peers[1..], bad);
    }
  }

  lemma AdmittedKeys<K>(peers: seq<Peer<K>>, bad: seq<K>, universe: set<K>)
    requires NoDup(Keys(peers)) && Within(Keys(peers), universe)
    ensures var a := Admitted(peers, bad);
            NoDup(a) && Within(a, universe) && Disjoint(a, bad)
  {
    AdmittedNoDup(peers, bad);
    hide NoDup, Admitted, Keys;
    var a := Admitted(peers, bad);
    forall i | 0 <= i < |a| ensures a[i] in Keys(peers) && a[i] !in bad {
      AdmittedFrom(peers, bad, a[i]);
    }
  }

  lemma {:induction false} PeersAppend<K>(log: seq<Probe<K>>, p: Probe<K>, answered: bool)
    ensures Peers(log + [p], answered) ==
            Peers(log, answered) + if p.answered == answered then [p.peer] else []
  {
    if |log| == 0 {
      assert log + [p] == [p];
    } else {
      PeersAppend(log[1..], p, answered);
      assert (log + [p])[1..] == log[1..] + [p];
    }
  }

  lemma {:induction false} UnansweredIsBad<K>(log: seq<Probe<K>>, i: nat)
    requires i < |log| && !log[i].answered
    ensures log[i].peer in Peers(log, false)
  {
    if i > 0 {
      UnansweredIsBad(log[1..], i - 1);
    }
  }

  lemma {:induction false} BadIsUnanswered<K>(log: seq<Probe<K>>, k: K) returns (i: nat)
    requires k in Peers(log, false)
    ensures i < |log| && log[i] == Probe(k, false)
  {
    if log[0] == Probe(k, false) {
      i := 0;
    } else {
      var j := BadIsUnanswered(log[1..], k);
      i := j + 1;
    }
  }

  /** Probing a peer that never failed to answer keeps the log free of second tries. */
  lemma LogStaysClean<K>(log: seq<Probe<K>>, p: Probe<K>)
    requires NoReprobe(log) && p.peer !in Peers(log, false)
    ensures NoReprobe(log + [p])
  {
    forall i | 0 <= i < |log| && !log[i].answered ensures log[i].peer != p.peer {
      UnansweredIsBad(log, i);
    }
  }

  lemma RemovalKeepsLists<K>(nodes: seq<K>, bad: seq<K>, index: nat, universe: set<K>)
    requires NoDup(nodes) && NoDup(bad) && Disjoint(nodes, bad) && index < |nodes|
    requires Within(nodes, universe) && Within(bad, universe)
    ensures var rest, worse := nodes[..index] + nodes[index + 1..], bad + [nodes[index]];
            && NoDup(rest) && NoDup(worse) && Disjoint(rest, worse)
            && Within(rest, universe) && Within(worse, universe)
  {
    var rest := nodes[..index] + nodes[index + 1..];
    assert forall i | 0 <= i < |rest| :: rest[i] == nodes[if i < index then i else i + 1];
  }

  lemma ProbeKeepsInv<K>(s: State<K>, answer: Answer, universe: set<K>)
    requires Inv(s, universe) && s.index < |s.nodes|
    ensures Inv(ProbeAt(s, answer).0, universe)
  {
    if answer != ProbeError {
      var p := Probe(s.nodes[s.index], answer == Responsive);
      PeersAppend(s.log, p, false);
      LogStaysClean(s.log, p);
      RemovalKeepsLists(s.nodes, s.badNodes, s.index, universe);
      hide NoDup, Disjoint, Within, NoReprobe, Peers;
      assert s.badNodes + [] == s.badNodes;
    }
  }

  lemma StepKeepsInv<K>(s: State<K>, t: Turn<K>, universe: set<K>)
    requires Inv(s, universe) && Listings([t], universe)
    ensures Inv(Step(s, t).0, universe)
  {
    if t.found {
    } else if s.index < |s.nodes| {
      ProbeKeepsInv(s, t.answer, universe);
    } else if t.known.Listed? {
      assert [t][0] == t;
      AdmittedKeys(t.known.peers, s.badNodes, universe);
      var r := Refresh(s, t.known);
      if r.1 == Searching {
        ProbeKeepsInv(r.0, t.answer, universe);
      }
    }
  }

  /** In every run: the sweep list and the bad list stay free of duplicates, disjoint and inside the
      universe, the bad list is exactly the unanswered part of the log, and no peer is probed again
      once it has failed to answer, however often the list is refreshed. */
  lemma {:induction false} RunKeepsInv<K>(s: State<K>, script: seq<Turn<K>>, universe: set<K>)
    requires Inv(s, universe) && Listings(script, universe)
    ensures Inv(Run(s, script).0, universe)
    decreases |script|
  {
    if |script| > 0 {
      assert [script[0]][0] == script[0];
      StepKeepsInv(s, script[0], universe);
      var next := Step(s, script[0]);
      if next.1 == Searching {
        RunKeepsInv(next.0, script[1..], universe);
      }
    }
  }

  lemma {:induction false} NoDupFits<K>(l: seq<K>, universe: set<K>)
    requires NoDup(l) && Within(l, universe)
    ensures |l| <= |universe|
    decreases |l|
  {
    if |l| > 0 {
      var rest := universe - {l[0]};
      assert Within(l[1..], rest);
      NoDupFits(l[1..], rest);
    }
  }

  lemma {:induction false} PeersCount<K>(log: seq<Probe<K>>)
    ensures |Peers(log, true)| + |Peers(log, false)| == |log|
  {
    if |log| > 0 {
      PeersCount(log[1..]);
    }
  }

  /** Of the n probes of any run, all but |universe| were answered. */
  lemma UnansweredProbesAreFew<K>(s: State<K>, script: seq<Turn<K>>, universe: set<K>)
    requires Inv(s, universe) && Listings(script, universe)
    ensures var log := Run(s, script).0.log;
            |Peers(log, true)| >= |log| - |universe|
  {
    RunKeepsInv(s, script, universe);
    var t := Run(s, script).0;
    PeersCount(t.log);
    NoDupFits(t.badNodes, universe);
  }

  /** A scan begins in a state from which all this holds. */
  lemma StartKeepsInv<K>(presets: seq<Peer<K>>, script: seq<Turn<K>>, universe: set<K>)
    requires AllAdded(presets) && NoDup(PresetKeys(presets)) && Within(PresetKeys(presets), universe)
    requires Listings(script, universe)
    ensures var t := Run(Start(presets), script).0;
            Inv(t, universe) && |Peers(t.log, true)| >= |t.log| - |universe|
  {
    RunKeepsInv(Start(presets), script, universe);
    UnansweredProbesAreFew(Start(presets), script, universe);
  }

  /** Without any assumption on the lists: the bad list records exactly the unanswered probes, and
      both it and the log only ever grow at their ends. */
  lemma StepAccounts<K>(s: State<K>, t: Turn<K>)
    requires Valid(s) && s.badNodes == Peers(s.log, false)
    ensures var u := Step(s, t).0;
            u.badNodes == Peers(u.log, false) && s.badNodes <= u.badNodes && s.log <= u.log
  {
    var u := Step(s, t).0;
    if |u.log| > |s.log| {
      var p := u.log[|s.log|];
      assert u.log == s.log + [p];
      PeersAppend(s.log, p, false);
    }
  }

  lemma {:induction false} RunAccounts<K>(s: State<K>, script: seq<Turn<K>>)
    requires Valid(s) && s.badNodes == Peers(s.log, false)
    ensures var t := Run(s, script).0;
            t.badNodes == Peers(t.log, false) && s.badNodes <= t.badNodes && s.log <= t.log
    decreases |script|
  {
    if |script| > 0 {
      StepAccounts(s, script[0]);
      var next := Step(s, script[0]);
      if next.1 == Searching {
        RunAccounts(next.0, script[1..]);
      }
    }
  }

  // ---- duplicates ----

  /** With a list free of duplicates a sweep never comes back to an unresponsive peer. */
  lemma SweepWithoutDuplicates<K>(s: State<K>, script: seq<Turn<K>>)
    requires s.index == 0 && s.log == [] && NoDup(s.nodes)
    requires Quiet(script) && |script| <= |s.nodes|
    ensures NoReprobe(Run(s, script).0.log)
  {
    SweepIsStablePartition(s, script);
    hide Run, Peers;
    var done := Probed(s.nodes, script);
    assert [] + done == done;
  }

  lemma SilentLog<K>(l: seq<K>, log: seq<Probe<K>>)
    requires |log| == |l| && forall i | 0 <= i < |l| :: log[i] == Probe(l[i], false)
    ensures NoReprobe(log) <==> NoDup(l)
  {
    if !NoDup(l) {
      var i, j :| 0 <= i < j < |l| && l[i] == l[j];
      assert !log[i].answered && log[i].peer == log[j].peer;
    }
  }

  /** The assumption on the lists is needed, and needed exactly: a sweep in which nobody answers comes
      back to an unresponsive peer if and only if the list has duplicates. */
  lemma SilentSweepNeedsNoDup<K>(s: State<K>, script: seq<Turn<K>>)
    requires s.index == 0 && s.log == []
    requires Quiet(script) && |script| == |s.nodes|
    requires forall i | 0 <= i < |script| :: script[i].answer == Unresponsive
    ensures NoReprobe(Run(s, script).0.log) <==> NoDup(s.nodes)
  {
    SweepIsStablePartition(s, script);
    var done := Probed(s.nodes, script);
    hide Run, Peers, NoDup, NoReprobe, Probed;
    assert [] + done == done;
    SilentLog(s.nodes, done);
  }

  // ---- progress ----

  /** What is left of the sweep shrinks with every turn that does not begin a new one. */
  lemma SweepShrinks<K>(s: State<K>, t: Turn<K>)
    requires s.index < |s.nodes| && Step(s, t).1 == Searching
    ensures var u := Step(s, t).0;
            |u.nodes| - u.index == |s.nodes| - s.index - 1
  {
  }

  function Elements<K(==)>(l: seq<K>): set<K> {
    set k | k in l
  }

  /** One more peer found unresponsive leaves one fewer that could be. */
  lemma SilentStep<K>(s: State<K>, t: Turn<K>, universe: set<K>)
    requires Inv(s, universe) && Listings([t], universe)
    requires t.answer == Unresponsive && Step(s, t).1 == Searching
    ensures var u := Step(s, t).0;
            |universe - Elements(u.badNodes)| < |universe - Elements(s.badNodes)|
  {
    StepKeepsInv(s, t, universe);
    var u := Step(s, t).0;
    var peer := u.badNodes[|s.badNodes|];
    assert u.badNodes == s.badNodes + [peer];
    forall i | 0 <= i < |s.badNodes| ensures s.badNodes[i] != peer {
      assert u.badNodes[i] == s.badNodes[i];
    }
    assert peer in universe && peer !in s.badNodes;
    assert peer !in Elements(s.badNodes) && peer in Elements(u.badNodes);
    assert Elements(u.badNodes) == Elements(s.badNodes) + {peer};
    assert universe - Elements(u.badNodes) == (universe - Elements(s.badNodes)) - {peer};
  }

  /** If from some state on no probe is answered, the loop ends, with the address, an error or no good
      peers, within one turn more than there are peers not yet known to be bad. */
  lemma {:induction false} SilenceEndsTheLoop<K>(s: State<K>, script: seq<Turn<K>>, universe: set<K>)
    requires Inv(s, universe) && Listings(script, universe)
    requires forall i | 0 <= i < |script| :: script[i].answer == Unresponsive
    requires |script| > |universe - Elements(s.badNodes)|
    ensures Run(s, script).1 != Searching
    decreases |script|
  {
    var next := Step(s, script[0]);
    if next.1 == Searching {
      assert [script[0]][0] == script[0];
      SilentStep(s, script[0], universe);
      StepKeepsInv(s, script[0], universe);
      SilenceEndsTheLoop(next.0, script[1..], universe);
    }
  }

  /** A turn that does not find the address begins a new sweep when the old one is used up. */
  predicate Refreshes<K>(s: State<K>, t: Turn<K>) {
    !t.found && s.index >= |s.nodes|
  }

  function RefreshCount<K(==)>(s: State<K>, script: seq<Turn<K>>): nat
    requires Valid(s)
    decreases |script|
  {
    if |script| == 0 then 0
    else
      var next := Step(s, script[0]);
      (if Refreshes(s, script[0]) then 1 else 0) +
      if next.1 == Searching then RefreshCount(next.0, script[1..]) else 0
  }

  /** What one turn costs: one place of the sweep, or, if it begins a new one, at most the universe. */
  lemma TurnCost<K>(s: State<K>, t: Turn<K>, universe: set<K>)
    requires Inv(s, universe) && Listings([t], universe) && Step(s, t).1 == Searching
    ensures var u := Step(s, t).0;
            1 + |u.nodes| - u.index <=
            if Refreshes(s, t) then |universe| else |s.nodes| - s.index
  {
    if Refreshes(s, t) {
      assert [t][0] == t;
      AdmittedKeys(t.known.peers, s.badNodes, universe);
      NoDupFits(Admitted(t.known.peers, s.badNodes), universe);
    } else {
      SweepShrinks(s, t);
    }
  }

  lemma OneMoreRefresh(count: nat, size: nat)
    ensures (1 + count) * size == size + count * size
  {
  }

  /** A run that is still searching has taken at most one turn for each place left in its first sweep
      and |universe| turns for each refresh since. */
  lemma {:induction false} TurnsAreBounded<K>(s: State<K>, script: seq<Turn<K>>, universe: set<K>)
    requires Inv(s, universe) && Listings(script, universe)
    requires Run(s, script).1 == Searching
    ensures |script| <= |s.nodes| - s.index + RefreshCount(s, script) * |universe|
    decreases |script|
  {
    if |script| > 0 {
      assert [script[0]][0] == script[0];
      var next := Step(s, script[0]);
      TurnCost(s, script[0], universe);
      StepKeepsInv(s, script[0], universe);
      TurnsAreBounded(next.0, script[1..], universe);
      var rest := RefreshCount(next.0, script[1..]);
      OneMoreRefresh(rest, |universe|);
    }
  }

  // ---- refreshing ----

  /** A refreshed list holds exactly the listed keys that are not bad. */
  lemma {:induction false} AdmittedExact<K>(peers: seq<Peer<K>>, bad: seq<K>, k: K)
    requires !AnyBroken(peers)
    ensures k in Admitted(peers, bad) <==> k !in bad && exists i | 0 <= i < |peers| :: peers[i] == Added(k)
  {
    if |peers| > 0 {
      assert forall i | 0 <= i < |peers[1..]| :: peers[1..][i] == peers[i + 1];
      AdmittedExact(peers[1..], bad, k);
      if i :| 0 <= i < |peers| && peers[i] == Added(k) {
        assert i > 0 ==> peers[1..][i - 1] == Added(k);
      }
    }
  }

  /** It keeps their order: lists are refreshed piece by piece. */
  lemma {:induction false} AdmittedConcat<K>(a: seq<Peer<K>>, b: seq<Peer<K>>, bad: seq<K>)
    requires !AnyBroken(a)
    ensures Admitted(a + b, bad) == Admitted(a, bad) + Admitted(b, bad)
  {
    if |a| == 0 {
      assert a + b == b;
    } else {
      assert forall i | 0 <= i < |a[1..]| :: a[1..][i] == a[i + 1];
      AdmittedConcat(a[1..], b, bad);
      assert (a + b)[1..] == a[1..] + b;
    }
  }

  /** Every listed key that is not bad is admitted once, refused peers are passed over, and an error ends
      the listing. */
  lemma AdmittedEach<K>(k: K, rest: seq<Peer<K>>, bad: seq<K>)
    ensures Admitted([Added(k)], bad) == if k in bad then [] else [k]
    ensures Admitted([Rejected], bad) == []
    ensures Admitted([Broken] + rest, bad) == []
  {
    assert Admitted([Added(k)][1..], bad) == [] && Admitted([Rejected][1..], bad) == [];
  }

  /** A turn that begins a new sweep puts the admitted list, whole and in the order of the listing, in
      place of the old one, probes the first peer of it, and keeps it or moves it to the bad ones. */
  lemma RefreshingTurn<K>(s: State<K>, t: Turn<K>)
    requires Valid(s) && Refreshes(s, t)
    requires t.known.Listed? && !AnyBroken(t.known.peers)
    requires Step(s, t).1 == Searching
    ensures var a := Admitted(t.known.peers, s.badNodes);
            && |a| > 0 && t.answer != ProbeError
            && Step(s, t).0 ==
               if t.answer == Responsive then State(a, s.badNodes, 1, s.log + [Probe(a[0], true)])
               else State(a[1..], s.badNodes + [a[0]], 0, s.log + [Probe(a[0], false)])
  {
    var a := Admitted(t.known.peers, s.badNodes);
    hide Admitted, AnyBroken;
    if |a| > 0 {
      assert a[..0] + a[0 + 1..] == a[1..];
    }
  }

  /** A turn that ends the loop leaves the bad list and the log as they were, and without a refresh the
      work list as well. */
  lemma EndingTurnChangesNothing<K>(s: State<K>, t: Turn<K>)
    requires Valid(s) && Step(s, t).1 != Searching
    ensures Step(s, t).0.badNodes == s.badNodes && Step(s, t).0.log == s.log
    ensures !Refreshes(s, t) ==> Step(s, t).0 == s
  {
    hide Admitted, AnyBroken;
  }

  /** From a used-up list a sweep over the admitted peers follows, in order and each once: those that
      answer lead the new list, and those that do not are appended to the bad ones. */
  lemma RefreshedSweep<K>(s: State<K>, script: seq<Turn<K>>)
    requires Valid(s) && s.index == |s.nodes| && Quiet(script) && |script| > 0
    requires script[0].known.Listed? && !AnyBroken(script[0].known.peers)
    requires |script| <= |Admitted(script[0].known.peers, s.badNodes)|
    ensures var a := Admitted(script[0].known.peers, s.badNodes);
            var done := Probed(a, script);
            Run(s, script) ==
            (State(Peers(done, true) + a[|script|..], s.badNodes + Peers(done, false),
                   |Peers(done, true)|, s.log + done), Searching)
  {
    var a := Admitted(script[0].known.peers, s.badNodes);
    var reloaded := State(a, s.badNodes, 0, s.log);
    hide Admitted, AnyBroken, Peers, Probed;
    assert Step(s, script[0]) == Step(reloaded, script[0]);
    SameStepSameRun(s, reloaded, script);
    SweepIsStablePartition(reloaded, script);
  }

  lemma SameStepSameRun<K>(s: State<K>, u: State<K>, script: seq<Turn<K>>)
    requires Valid(s) && Valid(u) && |script| > 0 && Step(s, script[0]) == Step(u, script[0])
    ensures Run(s, script) == Run(u, script)
  {
    hide Step;
  }

  /** One refresh is counted for every turn that begins a new sweep. */
  lemma {:induction false} RefreshesCounted<K>(s: State<K>, script: seq<Turn<K>>, t: Turn<K>)
    requires Valid(s)
    ensures RefreshCount(s, []) == 0
    ensures RefreshCount(s, script + [t]) == RefreshCount(s, script) +
            if Run(s, script).1 == Searching && Refreshes(Run(s, script).0, t) then 1 else 0
    decreases |script|
  {
    hide Step, Refreshes;
    if |script| == 0 {
      assert script + [t] == [t] && [t][1..] == [];
    } else {
      assert (script + [t])[0] == script[0] && (script + [t])[1..] == script[1..] + [t];
      var next := Step(s, script[0]);
      if next.1 == Searching {
        RefreshesCounted(next.0, script[1..], t);
      }
    }
  }

  /** The resolver gives up for want of good peers exactly when a sweep is used up and every peer that
      can be listed is known to be bad. */
  lemma GivesUpExactly<K>(s: State<K>, t: Turn<K>)
    requires Valid(s)
    ensures Step(s, t).1 == NoGoodPeers <==>
            && Refreshes(s, t) && t.known.Listed? && !AnyBroken(t.known.peers)
            && forall i | 0 <= i < |t.known.peers| && t.known.peers[i].Added? ::
                 t.known.peers[i].key in s.badNodes
  {
    if t.known.Listed? && !AnyBroken(t.known.peers) {
      var a := Admitted(t.known.peers, s.badNodes);
      forall i | 0 <= i < |t.known.peers| && t.known.peers[i].Added?
        ensures t.known.peers[i].key in a <==> t.known.peers[i].key !in s.badNodes {
        AdmittedExact(t.known.peers, s.badNodes, t.known.peers[i].key);
      }
      if |a| > 0 {
        AdmittedExact(t.known.peers, s.badNodes, a[0]);
      }
    }
  }

  predicate HasGoodPeer<K(==)>(s: State<K>, peers: seq<Peer<K>>) {
    exists i | 0 <= i < |peers| :: peers[i].Added? && peers[i].key !in s.badNodes
  }

  /** The network's doing that ends the loop with a given outcome. */
  predicate Ends<K(==)>(s: State<K>, t: Turn<K>, o: Outcome) {
    match o
    case Found => t.found
    case NoGoodPeers =>
      && Refreshes(s, t) && t.known.Listed? && !AnyBroken(t.known.peers)
      && !HasGoodPeer(s, t.known.peers)
    case Failed =>
      if Refreshes(s, t) then
        || t.known.Unavailable? || AnyBroken(t.known.peers)
        || (HasGoodPeer(s, t.known.peers) && t.answer == ProbeError)
      else !t.found && t.answer == ProbeError
    case _ => false
  }

  lemma RefreshGood<K>(s: State<K>, peers: seq<Peer<K>>)
    requires !AnyBroken(peers)
    ensures |Admitted(peers, s.badNodes)| > 0 <==> HasGoodPeer(s, peers)
  {
    var a := Admitted(peers, s.badNodes);
    if |a| > 0 {
      AdmittedExact(peers, s.badNodes, a[0]);
    }
    if i :| 0 <= i < |peers| && peers[i].Added? && peers[i].key !in s.badNodes {
      AdmittedExact(peers, s.badNodes, peers[i].key);
    }
  }

  lemma EndsExactly<K>(s: State<K>, t: Turn<K>, o: Outcome)
    requires Valid(s) && o != Searching
    ensures Step(s, t).1 == o <==> Ends(s, t, o)
  {
    if t.known.Listed? && !AnyBroken(t.known.peers) {
      RefreshGood(s, t.known.peers);
    }
    hide HasGoodPeer, Admitted, AnyBroken;
  }

  /** A run is its first part, and if that is still searching, the rest from there. */
  lemma {:induction false} RunSplits<K>(s: State<K>, first: seq<Turn<K>>, rest: seq<Turn<K>>)
    requires Valid(s)
    ensures Run(s, first + rest) ==
            if Run(s, first).1 == Searching then Run(Run(s, first).0, rest) else Run(s, first)
    decreases |first|
  {
    if |first| == 0 {
      assert first + rest == rest;
    } else {
      assert (first + rest)[0] == first[0] && (first + rest)[1..] == first[1..] + rest;
      var next := Step(s, first[0]);
      if next.1 == Searching {
        RunSplits(next.0, first[1..], rest);
      }
    }
  }

  lemma RunHead<K>(s: State<K>, script: seq<Turn<K>>)
    requires Valid(s) && |script| > 0
    ensures Step(s, script[0]).1 != Searching ==> Run(s, script) == Step(s, script[0])
  {
    hide Step;
  }

  lemma RunTo<K>(s: State<K>, script: seq<Turn<K>>, i: nat)
    requires Valid(s) && i < |script| && Run(s, script[..i]).1 == Searching
    ensures Step(Run(s, script[..i]).0, script[i]).1 != Searching ==>
              Run(s, script) == Step(Run(s, script[..i]).0, script[i])
  {
    hide Step, Run;
    assert script == script[..i] + script[i..] && script[i..][0] == script[i];
    RunSplits(s, script[..i], script[i..]);
    RunHead(Run(s, script[..i]).0, script[i..]);
  }

  lemma {:induction false} EndingTurn<K>(s: State<K>, script: seq<Turn<K>>) returns (i: nat)
    requires Valid(s) && Run(s, script).1 != Searching
    ensures i < |script| && Run(s, script[..i]).1 == Searching
    ensures Run(s, script) == Step(Run(s, script[..i]).0, script[i])
    decreases |script|
  {
    hide Step;
    var front, last := script[..|script| - 1], script[|script| - 1];
    assert script == front + [last] && [last][1..] == [];
    RunSplits(s, front, [last]);
    if Run(s, front).1 == Searching {
      i := |script| - 1;
    } else {
      i := EndingTurn(s, front);
      assert front[..i] == script[..i] && front[i] == script[i];
    }
  }

  /** Over a whole run: the loop ends with an outcome exactly when, at some turn it still reaches, the
      network gives it that end. It ends with the address only because a search found it, for want of
      peers only because every listed one is bad, and with an error only because one was met. */
  lemma RunEndsExactly<K>(s: State<K>, script: seq<Turn<K>>, o: Outcome)
    requires Valid(s) && o != Searching
    ensures Run(s, script).1 == o <==>
            exists i | 0 <= i < |script| ::
              Run(s, script[..i]).1 == Searching && Ends(Run(s, script[..i]).0, script[i], o)
  {
    hide Step, Ends;
    if Run(s, script).1 == o {
      var i := EndingTurn(s, script);
      EndsExactly(Run(s, script[..i]).0, script[i], o);
    }
    if i :| 0 <= i < |script| && Run(s, script[..i]).1 == Searching && Ends(Run(s, script[..i]).0, script[i], o) {
      EndsExactly(Run(s, script[..i]).0, script[i], o);
      RunTo(s, script, i);
    }
  }

  /** A preset listed twice is enough for an unresponsive peer to be probed again. */
  lemma DuplicatePresetReprobed<K>(k: K, known: Known<K>)
    ensures var t := Turn(false, known, Unresponsive);
            var r := Run(Start([Added(k), Added(k)]), [t, t]).0;
            r.log == [Probe(k, false), Probe(k, false)] && !NoReprobe(r.log)
  {
    var s := Start([Added(k), Added(k)]);
    var t := Turn(false, known, Unresponsive);
    assert PresetKeys([Added(k), Added(k)]) == [k, k];
    SweepIsStablePartition(s, [t, t]);
    var done := Probed(s.nodes, [t, t]);
    assert [] + done == done && done == [Probe(k, false), Probe(k, false)];
  }
}
