/** The JSON packetisers of main/thingscloud/thingscloud_adapter.c: properties are added to
    an object one by one, the one that makes it too long is taken out again, and the object
    is published before a fresh one starts. Text is represented by its length. */
module PacketBuilder {
  import opened GreedyCut

  const MAX_PAYLOAD := 1024

  /** A property: `size` is the length of its rendered member, quotes and colon included,
      `deviceSize` that of its quoted device name. */
  datatype Property = Property(device: string, key: string, size: nat, deviceSize: nat)

  function Lower(c: char): char { if 'A' <= c <= 'Z' then c - 'A' + 'a' else c }

  // The JSON library compares names without regard to case.
  predicate SameName(a: string, b: string) {
    |a| == |b| && forall i :: 0 <= i < |a| ==> Lower(a[i]) == Lower(b[i])
  }

  /** Two characters that agree but for the case of an ASCII letter. */
  predicate SameLetter(a: char, b: char) {
    a == b || ('A' <= a <= 'Z' && b as int == a as int + 32) || ('A' <= b <= 'Z' && a as int == b as int + 32)
  }

  lemma SameNameIff(a: string, b: string)
    ensures SameName(a, b) <==> |a| == |b| && forall i :: 0 <= i < |a| ==> SameLetter(a[i], b[i])
  {
    forall i | 0 <= i < |a| && i < |b| ensures Lower(a[i]) == Lower(b[i]) <==> SameLetter(a[i], b[i]) {
      LowerIff(a[i], b[i]);
    }
  }

  lemma LowerIff(a: char, b: char)
    ensures Lower(a) == Lower(b) <==> SameLetter(a, b)
  {}

  function Sum(ps: seq<Property>): nat {
    if ps == [] then 0 else Sum(ps[..|ps| - 1]) + ps[|ps| - 1].size
  }

  // Braces, members and the commas between them.
  function ObjectLength(ps: seq<Property>): nat {
    2 + Sum(ps) + (if |ps| == 0 then 0 else |ps| - 1)
  }

  /** Members separated by commas, in braces. */
  function ObjectText(members: seq<string>): string { "{" + Joined(members) + "}" }

  function Joined(members: seq<string>): string {
    if |members| == 0 then "" else if |members| == 1 then members[0]
    else Joined(members[..|members| - 1]) + "," + members[|members| - 1]
  }

  ghost predicate Sized(members: seq<string>, ps: seq<Property>) {
    |members| == |ps| && forall i :: 0 <= i < |ps| ==> |members[i]| == ps[i].size
  }

  lemma {:induction false} JoinedLength(members: seq<string>, ps: seq<Property>)
    requires Sized(members, ps)
    ensures |Joined(members)| == Sum(ps) + if |ps| == 0 then 0 else |ps| - 1
    decreases |ps|
  {
    if |ps| == 1 {
      assert ps[..0] == [];
    } else if |ps| > 1 {
      JoinedLength(members[..|members| - 1], ps[..|ps| - 1]);
    }
  }

  /** The length that the packetiser compares is that of the object's text. */
  lemma ObjectLengthIs(members: seq<string>, ps: seq<Property>)
    requires Sized(members, ps)
    ensures |ObjectText(members)| == ObjectLength(ps)
  {
    JoinedLength(members, ps);
  }

  function DeleteKey(ps: seq<Property>, key: string): seq<Property> {
    if ps == [] then []
    else if SameName(ps[0].key, key) then ps[1..]
    else [ps[0]] + DeleteKey(ps[1..], key)
  }

  predicate HasKey(ps: seq<Property>, key: string) {
    ps != [] && (SameName(ps[0].key, key) || HasKey(ps[1..], key))
  }

  lemma {:induction false} NoKey(ps: seq<Property>, key: string)
    requires forall i :: 0 <= i < |ps| ==> !SameName(ps[i].key, key)
    ensures !HasKey(ps, key)
  {
    if ps == [] {
    } else {
      NoKey(ps[1..], key);
    }
  }

  /** Whether the broker takes a packet, given the packets attempted before it. */
  type Publish<!P> = (seq<P>, P) -> bool

  // ---- Gateway mode: one flat object ----

  function Keyed(ps: seq<Property>): seq<Property> {
    if ps == [] then []
    else if ps[|ps| - 1].key == "" then Keyed(ps[..|ps| - 1])
    else Keyed(ps[..|ps| - 1]) + [ps[|ps| - 1]]
  }

  // The loop's state after a prefix of the properties: packets attempted, and the open object.
  function Loop(ps: seq<Property>): (r: (seq<seq<Property>>, seq<Property>)) {
    if ps == [] then ([], [])
    else
      var (attempts, root) := Loop(ps[..|ps| - 1]);
      var p := ps[|ps| - 1];
      if p.key == "" then (attempts, root)
      else
        var grown := root + [p];
        if ObjectLength(grown) > MAX_PAYLOAD && |grown| > 1 then (attempts + [DeleteKey(grown, p.key)], [p])
        else (attempts, grown)
  }

  /** The packets a gateway-mode call attempts, in order. */
  function Packets(ps: seq<Property>): seq<seq<Property>> {
    var (attempts, root) := Loop(ps);
    if root != [] then attempts + [root] else attempts
  }

  ghost predicate AllTaken<P(!new)>(publish: Publish<P>, attempts: seq<P>) {
    forall k :: 0 <= k < |attempts| ==> publish(attempts[..k], attempts[k])
  }

  method PublishGatewayChunked(ps: seq<Property>, publish: Publish<seq<Property>>)
    returns (ok: bool, attempts: seq<seq<Property>>)
    ensures attempts == Packets(ps)
    ensures ok <==> AllTaken(publish, attempts)
  {
    attempts, ok := [], true;
    var root: seq<Property> := [];
    var i := 0;
    while i < |ps|
      invariant 0 <= i <= |ps|
      invariant (attempts, root) == Loop(ps[..i])
      invariant ok <==> AllTaken(publish, attempts)
    {
      assert ps[..i + 1][..i] == ps[..i];
      var p := ps[i];
      i := i + 1;
      if p.key == "" { continue; }
      root := root + [p];
      if ObjectLength(root) > MAX_PAYLOAD && |root| > 1 {
        root := DeleteKey(root, p.key);
        var taken := publish(attempts, root);
        AllTakenGrow(publish, attempts, root);
        attempts := attempts + [root];
        ok := ok && taken;
        root := [p];
      }
    }
    assert ps[..|ps|] == ps;
    if root != [] {
      var taken := publish(attempts, root);
      AllTakenGrow(publish, attempts, root);
      attempts := attempts + [root];
      ok := ok && taken;
    }
  }

  lemma AllTakenGrow<P(!new)>(publish: Publish<P>, attempts: seq<P>, packet: P)
    ensures AllTaken(publish, attempts + [packet]) <==> AllTaken(publish, attempts) && publish(attempts, packet)
  {
    var grown := attempts + [packet];
    assert grown[|attempts|] == packet && grown[..|attempts|] == attempts;
    forall k | 0 <= k < |attempts| ensures grown[k] == attempts[k] && grown[..k] == attempts[..k] {}
  }

  // ---- Taking a member out again ----

  lemma {:induction false} DeleteAppended(ps: seq<Property>, p: Property)
    requires !HasKey(ps, p.key)
    ensures DeleteKey(ps + [p], p.key) == ps
  {
    if ps == [] {
      assert ([p])[1..] == [];
    } else {
      assert (ps + [p])[1..] == ps[1..] + [p];
      DeleteAppended(ps[1..], p);
      assert ps == [ps[0]] + ps[1..];
    }
  }

  ghost predicate DistinctKeys(ps: seq<Property>) {
    forall i, j :: 0 <= i < j < |ps| ==> !SameName(ps[i].key, ps[j].key)
  }

  /** Adding a property and deleting its key restores the object when no earlier member has
      that name in any case. */
  lemma DeleteUndoesAdd(ps: seq<Property>, p: Property)
    requires DistinctKeys(ps + [p])
    ensures DeleteKey(ps + [p], p.key) == ps
  {
    forall i | 0 <= i < |ps| ensures !SameName(ps[i].key, p.key) {
      assert (ps + [p])[i] == ps[i] && (ps + [p])[|ps|] == p;
    }
    NoKey(ps, p.key);
    DeleteAppended(ps, p);
  }

  // ---- Lossless and bounded ----

  /** An overflow of an object that already holds a key equal to the new one but for case. */
  predicate Clash(root: seq<Property>, p: Property) {
    p.key != "" && root != [] && ObjectLength(root + [p]) > MAX_PAYLOAD && HasKey(root, p.key)
  }

  predicate ClashFree(ps: seq<Property>) {
    ps == [] || (ClashFree(ps[..|ps| - 1]) && !Clash(Loop(ps[..|ps| - 1]).1, ps[|ps| - 1]))
  }

  // One round of the loop without a clash.
  lemma LoopStep(ps: seq<Property>, p: Property)
    requires p.key != "" && !Clash(Loop(ps).1, p)
    ensures var (attempts, root) := Loop(ps);
            Loop(ps + [p]) == if ObjectLength(root + [p]) > MAX_PAYLOAD && root != [] then (attempts + [root], [p])
                              else (attempts, root + [p])
  {
    var (attempts, root) := Loop(ps);
    assert (ps + [p])[..|ps|] == ps;
    if ObjectLength(root + [p]) > MAX_PAYLOAD && root != [] { DeleteAppended(root, p); }
  }

  predicate Fits(s: seq<Property>) { ObjectLength(s) <= MAX_PAYLOAD }

  /** Without a clash the loop cuts the keyed properties greedily. */
  lemma {:induction false} LoopIsGreedy(ps: seq<Property>)
    requires ClashFree(ps)
    ensures Loop(ps) == Greedy(Keyed(ps), Fits)
    decreases |ps|
  {
    if ps == [] {
    } else {
      var rest, p := ps[..|ps| - 1], ps[|ps| - 1];
      LoopIsGreedy(rest);
      if p.key != "" {
        LastSplit(ps);
        LoopStep(rest, p);
        GreedyStep(Keyed(rest), p, Fits);
      }
    }
  }

  // The open object ends the keyed prefix read so far.
  lemma LoopLossless(ps: seq<Property>)
    requires ClashFree(ps)
    ensures var (attempts, root) := Loop(ps);
            Flatten(attempts) + root == Keyed(ps) && forall s <- attempts :: s != []
  {
    LoopIsGreedy(ps);
    GreedyCuts(Keyed(ps), Fits);
  }

  /** Keys distinct ignoring case never clash. */
  lemma {:induction false} DistinctClashFree(ps: seq<Property>)
    requires DistinctKeys(ps)
    ensures ClashFree(ps)
    decreases |ps|
  {
    if ps == [] {
    } else {
      var n := |ps| - 1;
      DistinctClashFree(ps[..n]);
      LoopLossless(ps[..n]);
      assert ps == ps[..n] + [ps[n]];
      var (attempts, root) := Loop(ps[..n]);
      KeyedKeepsDistinct(ps[..n], ps[n], root, Flatten(attempts));
      var grown := root + [ps[n]];
      forall i | 0 <= i < |root| ensures !SameName(root[i].key, ps[n].key) {
        assert grown[i] == root[i] && grown[|root|] == ps[n];
      }
      NoKey(root, ps[n].key);
    }
  }

  lemma KeyedKeepsDistinct(ps: seq<Property>, p: Property, root: seq<Property>, earlier: seq<Property>)
    requires DistinctKeys(ps + [p]) && earlier + root == Keyed(ps)
    ensures DistinctKeys(root + [p])
  {
    KeyedIndices(ps);
    var at := KeyedAt(ps);
    var shift := |earlier|;
    var all := ps + [p];
    forall i, j | 0 <= i < j < |root| + 1 ensures !SameName((root + [p])[i].key, (root + [p])[j].key) {
      assert Keyed(ps)[shift + i] == root[i];
      if j < |root| {
        assert Keyed(ps)[shift + j] == root[j];
        assert all[at[shift + i]] == root[i] && all[at[shift + j]] == root[j];
      } else {
        assert all[at[shift + i]] == root[i] && all[|ps|] == p;
      }
    }
  }

  // Where each keyed property stood.
  ghost function KeyedAt(ps: seq<Property>): seq<nat> {
    if ps == [] then []
    else if ps[|ps| - 1].key == "" then KeyedAt(ps[..|ps| - 1])
    else KeyedAt(ps[..|ps| - 1]) + [|ps| - 1]
  }

  // `at` names positions of `ps`, in order, and `keyed` is what stands there.
  ghost predicate Picks(at: seq<nat>, keyed: seq<Property>, ps: seq<Property>) {
    && |at| == |keyed|
    && (forall k :: 0 <= k < |at| ==> at[k] < |ps| && keyed[k] == ps[at[k]])
    && (forall k, m :: 0 <= k < m < |at| ==> at[k] < at[m])
  }

  lemma PicksGrow(at: seq<nat>, keyed: seq<Property>, ps: seq<Property>, p: Property)
    requires Picks(at, keyed, ps)
    ensures Picks(at, keyed, ps + [p]) && Picks(at + [|ps|], keyed + [p], ps + [p])
  {}

  lemma {:induction false} KeyedIndices(ps: seq<Property>)
    ensures Picks(KeyedAt(ps), Keyed(ps), ps)
    decreases |ps|
  {
    if ps == [] {
    } else {
      var n := |ps| - 1;
      KeyedIndices(ps[..n]);
      PicksGrow(KeyedAt(ps[..n]), Keyed(ps[..n]), ps[..n], ps[n]);
      assert ps == ps[..n] + [ps[n]];
    }
  }

  lemma {:induction false} KeyedHaveKeys(ps: seq<Property>)
    ensures forall k :: 0 <= k < |Keyed(ps)| ==> Keyed(ps)[k].key != ""
    decreases |ps|
  {
    if ps == [] {
    } else {
      KeyedHaveKeys(ps[..|ps| - 1]);
    }
  }

  lemma LoopBounded(ps: seq<Property>)
    requires ClashFree(ps) && forall p <- ps :: Fits([p])
    ensures var (attempts, root) := Loop(ps);
            ObjectLength(root) <= MAX_PAYLOAD && forall s <- attempts :: ObjectLength(s) <= MAX_PAYLOAD
  {
    LoopIsGreedy(ps);
    KeyedIndices(ps);
    forall i | 0 <= i < |Keyed(ps)| ensures Fits([Keyed(ps)[i]]) {
      assert Keyed(ps)[i] == ps[KeyedAt(ps)[i]] && ps[KeyedAt(ps)[i]] in ps;
    }
    GreedyFits(Keyed(ps), Fits);
  }

  /** Packetising is lossless and bounded: the packets cut the keyed properties into
      consecutive non-empty segments, each at most 1024 bytes when every property fits alone. */
  lemma PacketsCutInput(ps: seq<Property>)
    requires ClashFree(ps)
    ensures Flatten(Packets(ps)) == Keyed(ps) && forall s <- Packets(ps) :: s != []
    ensures (forall p <- ps :: ObjectLength([p]) <= MAX_PAYLOAD) ==>
              forall s <- Packets(ps) :: ObjectLength(s) <= MAX_PAYLOAD
  {
    LoopLossless(ps);
    var (attempts, root) := Loop(ps);
    FlattenAppend(attempts, root);
    if forall p <- ps :: ObjectLength([p]) <= MAX_PAYLOAD { LoopBounded(ps); }
  }

  // ---- Exactly when it is lossless ----

  // Keys distinct as strings, which is what the buffer keeps; an empty key is skipped.
  ghost predicate DistinctStrings(ps: seq<Property>) {
    forall i, j :: 0 <= i < j < |ps| && ps[i].key != "" ==> ps[i].key != ps[j].key
  }

  ghost predicate NoDuplicates(ps: seq<Property>) { forall i, j :: 0 <= i < j < |ps| ==> ps[i] != ps[j] }

  // A clash puts another property in the place of the earlier one.
  lemma {:induction false} ClashChanges(root: seq<Property>, p: Property)
    requires HasKey(root, p.key) && NoDuplicates(root + [p])
    ensures |DeleteKey(root + [p], p.key)| == |root| && DeleteKey(root + [p], p.key) != root
    decreases |root|
  {
    var all := root + [p];
    if SameName(root[0].key, p.key) {
      assert all[1] != all[0];
      assert DeleteKey(all, p.key)[0] == all[1];
    } else {
      assert all[1..] == root[1..] + [p];
      forall i, j | 0 <= i < j < |all[1..]| ensures all[1..][i] != all[1..][j] {
        assert all[i + 1] != all[j + 1];
      }
      ClashChanges(root[1..], p);
      assert root == [root[0]] + root[1..];
    }
  }

  lemma {:induction false} AttemptsGrow(ps: seq<Property>, n: nat)
    requires n <= |ps|
    ensures Loop(ps[..n]).0 <= Loop(ps).0 && Keyed(ps[..n]) <= Keyed(ps)
    decreases |ps|
  {
    if n == |ps| {
      assert ps[..n] == ps;
    } else {
      assert ps[..|ps| - 1][..n] == ps[..n];
      AttemptsGrow(ps[..|ps| - 1], n);
    }
  }

  lemma {:induction false} FirstClash(ps: seq<Property>) returns (n: nat)
    requires !ClashFree(ps)
    ensures n < |ps| && ClashFree(ps[..n]) && Clash(Loop(ps[..n]).1, ps[n])
    decreases |ps|
  {
    n := |ps| - 1;
    if !ClashFree(ps[..n]) {
      var whole := ps[..n];
      n := FirstClash(whole);
      assert whole[..n] == ps[..n];
    }
  }

  lemma KeyedRootDistinct(ps: seq<Property>, p: Property, root: seq<Property>, earlier: seq<Property>)
    requires DistinctStrings(ps + [p]) && p.key != "" && earlier + root == Keyed(ps)
    ensures NoDuplicates(root + [p])
  {
    KeyedIndices(ps);
    KeyedHaveKeys(ps);
    var at, shift, all := KeyedAt(ps), |earlier|, ps + [p];
    forall i | 0 <= i < |root| ensures root[i].key != "" && at[shift + i] < |ps| && all[at[shift + i]] == root[i] {
      assert Keyed(ps)[shift + i] == root[i];
    }
    forall i, j | 0 <= i < j < |root| + 1 ensures (root + [p])[i].key != (root + [p])[j].key {
      if j < |root| {
        assert all[at[shift + i]] == root[i] && all[at[shift + j]] == root[j];
      } else {
        assert all[at[shift + i]] == root[i] && all[|ps|] == p;
      }
    }
  }

  lemma SameSegments<T>(front: seq<T>, a: seq<T>, b: seq<T>, whole: seq<T>)
    requires front + a <= whole && front + b <= whole && |a| == |b|
    ensures a == b
  {
    var n := |front| + |a|;
    assert front + a == whole[..n] && front + b == whole[..n];
    assert a == (front + a)[|front|..] && b == (front + b)[|front|..];
  }

  lemma WrongPacket(attempts: seq<seq<Property>>, packet: seq<Property>, root: seq<Property>,
                    packets: seq<seq<Property>>, keyed: seq<Property>)
    requires attempts + [packet] <= packets && Flatten(attempts) + root <= keyed
    requires |packet| == |root| && packet != root
    ensures Flatten(packets) != keyed
  {
    FlattenPrefix(attempts + [packet], packets);
    FlattenAppend(attempts, packet);
    if Flatten(packets) == keyed { SameSegments(Flatten(attempts), packet, root, keyed); }
  }

  // What a clash publishes.
  lemma ClashPublishes(ps: seq<Property>, n: nat)
    requires n < |ps| && Clash(Loop(ps[..n]).1, ps[n])
    ensures var (attempts, root) := Loop(ps[..n]);
            attempts + [DeleteKey(root + [ps[n]], ps[n].key)] <= Packets(ps)
  {
    assert ps[..n + 1][..n] == ps[..n];
    AttemptsGrow(ps, n + 1);
  }

  // The packet published at a clash is not the open object before it.
  lemma ClashPacket(ps: seq<Property>, p: Property)
    requires DistinctStrings(ps + [p]) && ClashFree(ps) && Clash(Loop(ps).1, p)
    ensures var (attempts, root) := Loop(ps);
            var packet := DeleteKey(root + [p], p.key);
            Flatten(attempts) + root == Keyed(ps) && |packet| == |root| && packet != root
  {
    var (attempts, root) := Loop(ps);
    LoopLossless(ps);
    KeyedRootDistinct(ps, p, root, Flatten(attempts));
    ClashChanges(root, p);
  }

  lemma PrefixDistinct(ps: seq<Property>, n: nat)
    requires n < |ps| && DistinctStrings(ps)
    ensures DistinctStrings(ps[..n] + [ps[n]])
  {
    assert ps[..n] + [ps[n]] == ps[..n + 1];
  }

  lemma ClashLoses(ps: seq<Property>, n: nat)
    requires n < |ps| && DistinctStrings(ps[..n] + [ps[n]]) && ClashFree(ps[..n]) && Clash(Loop(ps[..n]).1, ps[n])
    ensures Flatten(Packets(ps)) != Keyed(ps)
  {
    var (attempts, root) := Loop(ps[..n]);
    ClashPacket(ps[..n], ps[n]);
    ClashPublishes(ps, n);
    AttemptsGrow(ps, n);
    WrongPacket(attempts, DeleteKey(root + [ps[n]], ps[n].key), root, Packets(ps), Keyed(ps));
  }

  /** For keys distinct as strings the packets cut the input exactly when no property overflows
      an object that already holds its key in another case. */
  lemma LosslessIff(ps: seq<Property>)
    requires DistinctStrings(ps)
    ensures Flatten(Packets(ps)) == Keyed(ps) <==> ClashFree(ps)
  {
    if ClashFree(ps) { PacketsCutInput(ps); } else { SomeClashLoses(ps); }
  }

  lemma SomeClashLoses(ps: seq<Property>)
    requires DistinctStrings(ps) && !ClashFree(ps)
    ensures Flatten(Packets(ps)) != Keyed(ps)
  {
    var n := FirstClash(ps);
    PrefixDistinct(ps, n);
    ClashLoses(ps, n);
  }

  /** Names that differ only in case break it: the earlier property is deleted in place of the
      later one, which is then sent twice. */
  lemma CaseTwinsLose(a: Property, b: Property)
    requires a.key != "" && b.key != "" && SameName(a.key, b.key)
    requires ObjectLength([a, b]) > MAX_PAYLOAD
    ensures Packets([a, b]) == [[b], [b]]
  {
    LoopOne(a);
    var ps := [a, b];
    assert ps[..1] == [a];
    assert [a] + [b] == ps && ps[1..] == [b];
    assert DeleteKey(ps, b.key) == [b];
    var (attempts, root) := Loop(ps[..1]);
    assert attempts + [[b]] == [[b]];
    assert Loop(ps) == ([[b]], [b]);
    assert [[b]] + [[b]] == [[b], [b]];
  }

  lemma LoopOne(a: Property)
    requires a.key != ""
    ensures Loop([a]) == ([], [a])
  {
    assert [a][..0] == [] && [] + [a] == [a];
    assert Loop([]) == ([], []);
  }

  // ---- Fewest packets ----

  lemma {:induction false} SumAppend(a: seq<Property>, b: seq<Property>)
    ensures Sum(a + b) == Sum(a) + Sum(b)
    decreases |b|
  {
    if b == [] {
      assert a + b == a;
    } else {
      assert (a + b)[..|a + b| - 1] == a + b[..|b| - 1];
      SumAppend(a, b[..|b| - 1]);
    }
  }

  // Every property takes room, so a part of an object is no longer than the whole.
  lemma PartsShorter()
    ensures PartsFit(Fits)
  {
    forall a: seq<Property>, b: seq<Property> ensures PartFits(Fits, a, b) { SumAppend(a, b); }
  }

  /** No cut into packets of at most 1024 bytes uses fewer packets than the call attempts. */
  lemma FewestPackets(ps: seq<Property>, segments: seq<seq<Property>>)
    requires ClashFree(ps) && Cuts(segments, Keyed(ps), Fits)
    ensures |Packets(ps)| <= |segments|
  {
    LoopIsGreedy(ps);
    PartsShorter();
    FewestSegments(Keyed(ps), segments, Fits);
  }
}
