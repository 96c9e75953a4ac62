/** The sub-device packetiser of main/thingscloud/thingscloud_adapter.c: properties are
    grouped under their device inside one object, and overflow takes the last one out again. */
module SubdevicePackets {
  import opened Wrappers
  import opened GreedyCut
  import opened PacketBuilder

  datatype Group = Group(device: string, deviceSize: nat, members: seq<Property>)

  type Root = seq<Group>

  function GroupsLength(root: Root): nat {
    if root == [] then 0
    else GroupsLength(root[..|root| - 1]) + root[|root| - 1].deviceSize + 1 + ObjectLength(root[|root| - 1].members)
  }

  function RootLength(root: Root): nat {
    2 + GroupsLength(root) + (if |root| == 0 then 0 else |root| - 1)
  }

  /** The text of a root object: under each device name, the object of its members. */
  function RootText(names: seq<string>, objects: seq<seq<string>>): string
    requires |names| == |objects|
  {
    ObjectText(GroupTexts(names, objects))
  }

  function GroupTexts(names: seq<string>, objects: seq<seq<string>>): (r: seq<string>)
    requires |names| == |objects|
    ensures |r| == |names|
  {
    seq(|names|, i requires 0 <= i < |names| => names[i] + ":" + ObjectText(objects[i]))
  }

  ghost predicate RootSized(names: seq<string>, objects: seq<seq<string>>, root: Root) {
    && |names| == |objects| == |root|
    && forall i :: 0 <= i < |root| ==> |names[i]| == root[i].deviceSize && Sized(objects[i], root[i].members)
  }

  lemma {:induction false} JoinedGroups(names: seq<string>, objects: seq<seq<string>>, root: Root)
    requires RootSized(names, objects, root)
    ensures |Joined(GroupTexts(names, objects))| == GroupsLength(root) + if |root| == 0 then 0 else |root| - 1
    decreases |root|
  {
    if |root| > 0 {
      var n := |root| - 1;
      var front, last := GroupTexts(names[..n], objects[..n]), GroupTexts(names, objects)[n];
      JoinedGroups(names[..n], objects[..n], root[..n]);
      ObjectLengthIs(objects[n], root[n].members);
      assert |last| == root[n].deviceSize + 1 + ObjectLength(root[n].members);
      assert GroupTexts(names, objects)[..n] == front;
    }
  }

  /** The length that the packetiser compares is that of the root object's text. */
  lemma RootLengthIs(names: seq<string>, objects: seq<seq<string>>, root: Root)
    requires RootSized(names, objects, root)
    ensures |RootText(names, objects)| == RootLength(root)
  {
    JoinedGroups(names, objects, root);
  }

  // The index of a device's object, or |root| when it has none.
  function FindDevice(root: Root, device: string): (i: nat)
    ensures i <= |root|
    ensures i < |root| ==> SameName(root[i].device, device)
    ensures forall k :: 0 <= k < i ==> !SameName(root[k].device, device)
  {
    FirstWhere(root, (g: Group) => SameName(g.device, device), 0)
  }

  function AddTo(root: Root, p: Property): Root {
    var i := FindDevice(root, p.device);
    if i == |root| then root + [Group(p.device, p.deviceSize, [p])]
    else root[i := root[i].(members := root[i].members + [p])]
  }

  function TakeOut(root: Root, p: Property): Root {
    var i := FindDevice(root, p.device);
    if i == |root| then root
    else
      var members := DeleteKey(root[i].members, p.key);
      if members == [] then root[..i] + root[i + 1..] else root[i := root[i].(members := members)]
  }

  datatype Status = Running | Delivered | PublishFailed | TooBig

  datatype State = State(attempts: seq<Root>, root: Root, inPack: nat, status: Status)

  function Step(s: State, p: Property, publish: Publish<Root>): State {
    var grown := AddTo(s.root, p);
    if RootLength(grown) <= MAX_PAYLOAD then s.(root := grown, inPack := s.inPack + 1)
    else
      var reduced := TakeOut(grown, p);
      var attempts := if s.inPack > 0 then s.attempts + [reduced] else s.attempts;
      if s.inPack > 0 && !publish(s.attempts, reduced) then State(attempts, reduced, s.inPack, PublishFailed)
      else
        var single := AddTo([], p);
        State(attempts, single, 1, if RootLength(single) > MAX_PAYLOAD then TooBig else Running)
  }

  function Loop(ps: seq<Property>, publish: Publish<Root>): (s: State)
    ensures s.status != Delivered
  {
    if ps == [] then State([], [], 0, Running)
    else
      var s := Loop(ps[..|ps| - 1], publish);
      if s.status.Running? then Step(s, ps[|ps| - 1], publish) else s
  }

  function Finish(s: State, publish: Publish<Root>): (seq<Root>, Status) {
    if s.status != Running then (s.attempts, s.status)
    else if s.inPack == 0 then (s.attempts, Delivered)
    else (s.attempts + [s.root], if publish(s.attempts, s.root) then Delivered else PublishFailed)
  }

  lemma {:induction false} LoopStops(ps: seq<Property>, i: nat, publish: Publish<Root>)
    requires i <= |ps| && !Loop(ps[..i], publish).status.Running?
    ensures Loop(ps, publish) == Loop(ps[..i], publish)
    decreases |ps|
  {
    if i < |ps| {
      assert ps[..|ps| - 1][..i] == ps[..i];
      LoopStops(ps[..|ps| - 1], i, publish);
    } else {
      assert ps[..i] == ps;
    }
  }

  method PublishSubdeviceAggregated(ps: seq<Property>, publish: Publish<Root>)
    returns (attempts: seq<Root>, status: Status)
    ensures (attempts, status) == Finish(Loop(ps, publish), publish)
  {
    attempts, status := [], Running;
    var root: Root, inPack := [], 0;
    var i := 0;
    while i < |ps|
      invariant 0 <= i <= |ps|
      invariant status.Running?
      invariant State(attempts, root, inPack, status) == Loop(ps[..i], publish)
    {
      assert ps[..i + 1][..i] == ps[..i];
      var p := ps[i];
      i := i + 1;
      root := AddTo(root, p);
      inPack := inPack + 1;
      if RootLength(root) <= MAX_PAYLOAD { continue; }
      root := TakeOut(root, p);
      inPack := inPack - 1;
      if inPack > 0 {
        var taken := publish(attempts, root);
        attempts := attempts + [root];
        if !taken {
          status := PublishFailed;
          LoopStops(ps, i, publish);
          return;
        }
      }
      root := AddTo([], p);
      inPack := 1;
      if RootLength(root) > MAX_PAYLOAD {
        status := TooBig;
        LoopStops(ps, i, publish);
        return;
      }
    }
    assert ps[..|ps|] == ps;
    if inPack == 0 { return attempts, Delivered; }
    var taken := publish(attempts, root);
    attempts := attempts + [root];
    status := if taken then Delivered else PublishFailed;
  }

  // ---- The object of a segment ----

  function Grouped(segment: seq<Property>): Root {
    if segment == [] then [] else AddTo(Grouped(segment[..|segment| - 1]), segment[|segment| - 1])
  }

  function Members(root: Root): seq<Property> {
    if root == [] then [] else root[0].members + Members(root[1..])
  }

  // Non-empty device objects, each holding properties of the segment under a matching name.
  ghost predicate Holds(root: Root, segment: seq<Property>) {
    forall g <- root :: g.members != [] && forall m <- g.members :: m in segment && SameName(m.device, g.device)
  }

  lemma {:induction false} GroupedHolds(segment: seq<Property>)
    ensures Holds(Grouped(segment), segment)
    decreases |segment|
  {
    if segment == [] {
    } else {
      var n := |segment| - 1;
      GroupedHolds(segment[..n]);
      assert forall m <- segment[..n] :: m in segment;
      AddHolds(Grouped(segment[..n]), segment[n], segment);
    }
  }

  lemma AddHolds(root: Root, p: Property, segment: seq<Property>)
    requires Holds(root, segment) && p in segment
    ensures Holds(AddTo(root, p), segment)
  {
    var i := FindDevice(root, p.device);
    if i < |root| {
      var g := root[i];
      assert g in root;
      var g' := g.(members := g.members + [p]);
      assert SameName(p.device, g.device);
      forall h <- AddTo(root, p)
        ensures h.members != [] && forall m <- h.members :: m in segment && SameName(m.device, h.device)
      {
        assert h == g' || h in root;
      }
    }
  }

  ghost predicate DistinctPoints(ps: seq<Property>) {
    forall i, j :: 0 <= i < j < |ps| ==> !(SameName(ps[i].device, ps[j].device) && SameName(ps[i].key, ps[j].key))
  }

  lemma SameNameTransitive(a: string, b: string, c: string)
    requires SameName(a, b) && SameName(b, c)
    ensures SameName(a, c)
  {}

  lemma FindDeviceLast(root: Root, g: Group, device: string)
    requires FindDevice(root, device) == |root| && SameName(g.device, device)
    ensures FindDevice(root + [g], device) == |root|
  {
    assert forall k :: 0 <= k < |root| ==> (root + [g])[k] == root[k];
    assert (root + [g])[|root|] == g;
  }

  lemma FindDeviceUpdated(root: Root, i: nat, members: seq<Property>, device: string)
    requires i == FindDevice(root, device) < |root|
    ensures FindDevice(root[i := root[i].(members := members)], device) == i
  {
    var root' := root[i := root[i].(members := members)];
    assert forall k :: 0 <= k < |root| ==> root'[k].device == root[k].device;
  }

  // The object of the property's device already holds its key in some case.
  predicate HoldsTwin(root: Root, p: Property) {
    var i := FindDevice(root, p.device);
    i < |root| && HasKey(root[i].members, p.key)
  }

  /** Taking a property out undoes adding it, device object included, when its device object
      does not hold its key in any case. */
  lemma TakeOutUndoesAdd(root: Root, p: Property)
    requires !HoldsTwin(root, p) && forall g <- root :: g.members != []
    ensures TakeOut(AddTo(root, p), p) == root
  {
    var i := FindDevice(root, p.device);
    if i == |root| {
      var g := Group(p.device, p.deviceSize, [p]);
      FindDeviceLast(root, g, p.device);
      assert SameName(p.key, p.key);
      assert DeleteKey([p], p.key) == [p][1..] == [];
      assert (root + [g])[..|root|] == root && (root + [g])[|root| + 1..] == [];
    } else {
      var g := root[i];
      assert g in root;
      DeleteAppended(g.members, p);
      FindDeviceUpdated(root, i, g.members + [p], p.device);
      assert root[i := g] == root;
    }
  }

  // Distinct points never meet a twin.
  lemma DistinctNoTwin(segment: seq<Property>, p: Property)
    requires DistinctPoints(segment + [p])
    ensures !HoldsTwin(Grouped(segment), p)
  {
    var root := Grouped(segment);
    var i := FindDevice(root, p.device);
    GroupedHolds(segment);
    if i < |root| {
      var g := root[i];
      assert g in root;
      forall j | 0 <= j < |g.members| ensures !SameName(g.members[j].key, p.key) {
        var m := g.members[j];
        assert m in g.members;
        SameNameTransitive(m.device, g.device, p.device);
        var k :| 0 <= k < |segment| && segment[k] == m;
        assert (segment + [p])[k] == m && (segment + [p])[|segment|] == p;
      }
      NoKey(g.members, p.key);
    }
  }

  /** An overflow of an object whose device already holds the new key in some case. */
  predicate Clashes(root: Root, p: Property) {
    RootLength(AddTo(root, p)) > MAX_PAYLOAD && HoldsTwin(root, p)
  }

  predicate ClashFree(ps: seq<Property>, publish: Publish<Root>) {
    ps == []
    || (var s := Loop(ps[..|ps| - 1], publish);
        ClashFree(ps[..|ps| - 1], publish) && !(s.status.Running? && Clashes(s.root, ps[|ps| - 1])))
  }

  // ---- Segments behind the attempts ----

  function GroupedAll(segments: seq<seq<Property>>): seq<Root> {
    seq(|segments|, k requires 0 <= k < |segments| => Grouped(segments[k]))
  }

  lemma GroupedAllAppend(segments: seq<seq<Property>>, s: seq<Property>)
    ensures GroupedAll(segments + [s]) == GroupedAll(segments) + [Grouped(s)]
  {}

  // The attempts and the open object are the objects of consecutive segments of `ps`.
  ghost predicate Tracks(s: State, segments: seq<seq<Property>>, open: seq<Property>, ps: seq<Property>) {
    && s.attempts == GroupedAll(segments) && (forall k <- segments :: k != [])
    && (s.status.Running? ==> Flatten(segments) + open == ps && s.root == Grouped(open) && s.inPack == |open|)
  }

  ghost predicate Bounded(s: State) {
    && (forall a <- s.attempts :: RootLength(a) <= MAX_PAYLOAD)
    && (s.status.Running? ==> RootLength(s.root) <= MAX_PAYLOAD && forall g <- s.root :: g.members != [])
  }

  lemma GroupedGrow(open: seq<Property>, p: Property)
    ensures Grouped(open + [p]) == AddTo(Grouped(open), p)
  {
    assert (open + [p])[..|open|] == open;
  }

  // One round without a clash: the property joins the object, or the object is published and
  // a fresh one starts with the property.
  lemma StepIs(s: State, p: Property, publish: Publish<Root>)
    requires !Clashes(s.root, p) && forall g <- s.root :: g.members != []
    ensures var t := Step(s, p, publish);
            if RootLength(AddTo(s.root, p)) <= MAX_PAYLOAD then t == s.(root := AddTo(s.root, p), inPack := s.inPack + 1)
            else
              && t.attempts == (if s.inPack > 0 then s.attempts + [s.root] else s.attempts)
              && (t.status.Running? ==> t.root == AddTo([], p) && t.inPack == 1 && RootLength(t.root) <= MAX_PAYLOAD)
  {
    if RootLength(AddTo(s.root, p)) > MAX_PAYLOAD { TakeOutUndoesAdd(s.root, p); }
  }

  // A round without a clash leads from s to t.
  ghost predicate Follows(s: State, t: State, p: Property) {
    || t == s.(root := AddTo(s.root, p), inPack := s.inPack + 1)
    || (t.attempts == (if s.inPack > 0 then s.attempts + [s.root] else s.attempts)
        && (t.status.Running? ==> t.root == AddTo([], p) && t.inPack == 1))
  }

  lemma StepTracks(s: State, t: State, segments: seq<seq<Property>>, open: seq<Property>, ps: seq<Property>, p: Property)
    returns (segments': seq<seq<Property>>, open': seq<Property>)
    requires Tracks(s, segments, open, ps) && s.status.Running?
    requires Follows(s, t, p)
    ensures Tracks(t, segments', open', ps + [p])
  {
    if t == s.(root := AddTo(s.root, p), inPack := s.inPack + 1) {
      GroupedGrow(open, p);
      segments', open' := segments, open + [p];
      assert Flatten(segments) + (open + [p]) == ps + [p];
    } else {
      GroupedGrow([], p);
      assert [] + [p] == [p];
      segments', open' := segments, [p];
      if open != [] {
        FlattenAppend(segments, open);
        GroupedAllAppend(segments, open);
        segments' := segments + [open];
      } else {
        AppendNothing(Flatten(segments));
      }
    }
  }

  lemma AddedNonEmpty(root: Root, p: Property)
    requires forall g <- root :: g.members != []
    ensures forall g <- AddTo(root, p) :: g.members != []
  {
    var i := FindDevice(root, p.device);
    if i < |root| {
      forall g <- AddTo(root, p) ensures g.members != [] {
        assert g == AddTo(root, p)[i] || g in root;
      }
    }
  }

  lemma StepBounded(s: State, p: Property, publish: Publish<Root>)
    requires Bounded(s) && s.status.Running? && !Clashes(s.root, p)
    ensures Bounded(Step(s, p, publish))
  {
    StepIs(s, p, publish);
    AddedNonEmpty(s.root, p);
    AddedNonEmpty([], p);
  }

  lemma LoopLast(ps: seq<Property>, publish: Publish<Root>)
    requires ps != []
    ensures var s := Loop(ps[..|ps| - 1], publish);
            Loop(ps, publish) == if s.status.Running? then Step(s, ps[|ps| - 1], publish) else s
  {}

  lemma {:induction false} LoopBounded(ps: seq<Property>, publish: Publish<Root>)
    requires ClashFree(ps, publish)
    ensures Bounded(Loop(ps, publish))
    decreases |ps|
  {
    if ps == [] {
    } else {
      var n := |ps| - 1;
      var s := Loop(ps[..n], publish);
      LoopBounded(ps[..n], publish);
      LoopLast(ps, publish);
      if s.status.Running? { StepBounded(s, ps[n], publish); }
    }
  }

  lemma LoopFollows(ps: seq<Property>, publish: Publish<Root>)
    requires ps != [] && ClashFree(ps, publish)
    ensures var s := Loop(ps[..|ps| - 1], publish);
            if s.status.Running? then Follows(s, Loop(ps, publish), ps[|ps| - 1]) else Loop(ps, publish) == s
  {
    var n := |ps| - 1;
    LoopLast(ps, publish);
    LoopBounded(ps[..n], publish);
    if Loop(ps[..n], publish).status.Running? { StepIs(Loop(ps[..n], publish), ps[n], publish); }
  }

  lemma {:induction false} LoopSegments(ps: seq<Property>, publish: Publish<Root>) returns (segments: seq<seq<Property>>, open: seq<Property>)
    requires ClashFree(ps, publish)
    ensures Tracks(Loop(ps, publish), segments, open, ps)
    decreases |ps|
  {
    if ps == [] {
      segments, open := [], [];
    } else {
      var n := |ps| - 1;
      segments, open := LoopSegments(ps[..n], publish);
      LoopFollows(ps, publish);
      LastSplit(ps);
      if Loop(ps[..n], publish).status.Running? {
        segments, open := StepTracks(Loop(ps[..n], publish), Loop(ps, publish), segments, open, ps[..n], ps[n]);
      }
    }
  }

  lemma SuffixDistinct(ps: seq<Property>, earlier: seq<Property>, open: seq<Property>, p: Property)
    requires ps != [] && DistinctPoints(ps) && earlier + open == ps[..|ps| - 1] && p == ps[|ps| - 1]
    ensures DistinctPoints(open + [p])
  {
    var all := open + [p];
    forall k | 0 <= k < |all| ensures all[k] == ps[|earlier| + k] {
      if k < |open| { assert (earlier + open)[|earlier| + k] == open[k]; }
    }
  }

  /** Points distinct ignoring case never clash. */
  lemma {:induction false} DistinctClashFree(ps: seq<Property>, publish: Publish<Root>)
    requires DistinctPoints(ps)
    ensures ClashFree(ps, publish)
    decreases |ps|
  {
    if ps == [] {
    } else {
      var n := |ps| - 1;
      DistinctClashFree(ps[..n], publish);
      var segments, open := LoopSegments(ps[..n], publish);
      if Loop(ps[..n], publish).status.Running? {
        SuffixDistinct(ps, Flatten(segments), open, ps[n]);
        DistinctNoTwin(open, ps[n]);
      }
    }
  }

  lemma DeliveredBounded(ps: seq<Property>, publish: Publish<Root>)
    requires ClashFree(ps, publish) && Finish(Loop(ps, publish), publish).1 == Delivered
    ensures forall a <- Finish(Loop(ps, publish), publish).0 :: RootLength(a) <= MAX_PAYLOAD
  {
    LoopBounded(ps, publish);
  }

  /** A delivered call is lossless and bounded: its packets are the objects of consecutive
      segments that make up the input, and each has at most 1024 bytes. */
  lemma DeliveredCutsInput(ps: seq<Property>, publish: Publish<Root>) returns (segments: seq<seq<Property>>)
    requires ClashFree(ps, publish)
    requires Finish(Loop(ps, publish), publish).1 == Delivered
    ensures Finish(Loop(ps, publish), publish).0 == GroupedAll(segments)
    ensures Flatten(segments) == ps && forall s <- segments :: s != []
    ensures forall a <- Finish(Loop(ps, publish), publish).0 :: RootLength(a) <= MAX_PAYLOAD
  {
    var open;
    segments, open := LoopSegments(ps, publish);
    DeliveredBounded(ps, publish);
    if open != [] {
      FlattenAppend(segments, open);
      GroupedAllAppend(segments, open);
      segments := segments + [open];
    } else {
      AppendNothing(Flatten(segments));
    }
  }

  // ---- What a packet contains ----

  lemma {:induction false} MembersUpdated(root: Root, i: nat, p: Property)
    requires i < |root|
    ensures multiset(Members(root[i := root[i].(members := root[i].members + [p])])) == multiset(Members(root)) + multiset{p}
    decreases |root|
  {
    var root' := root[i := root[i].(members := root[i].members + [p])];
    if i == 0 {
      assert root'[1..] == root[1..];
    } else {
      assert root'[1..] == root[1..][i - 1 := root[1..][i - 1].(members := root[1..][i - 1].members + [p])];
      MembersUpdated(root[1..], i - 1, p);
    }
  }

  lemma {:induction false} MembersAppend(root: Root, g: Group)
    ensures multiset(Members(root + [g])) == multiset(Members(root)) + multiset(g.members)
    decreases |root|
  {
    if root == [] {
      assert root + [g] == [g] && [g][1..] == [];
      assert Members([g]) == g.members + Members([g][1..]);
    } else {
      assert (root + [g])[1..] == root[1..] + [g];
      MembersAppend(root[1..], g);
    }
  }

  /** The object of a segment contains each of its properties exactly once, under its own
      device. */
  lemma {:induction false} GroupedContents(segment: seq<Property>)
    ensures multiset(Members(Grouped(segment))) == multiset(segment)
    ensures forall g <- Grouped(segment) :: forall m <- g.members :: SameName(m.device, g.device)
    decreases |segment|
  {
    GroupedHolds(segment);
    if segment == [] {
    } else {
      var n := |segment| - 1;
      var p := segment[n];
      GroupedContents(segment[..n]);
      assert segment == segment[..n] + [p];
      var root := Grouped(segment[..n]);
      var i := FindDevice(root, p.device);
      if i == |root| {
        MembersAppend(root, Group(p.device, p.deviceSize, [p]));
      } else {
        MembersUpdated(root, i, p);
      }
    }
  }

  // ---- Exactly when it is lossless ----

  // Points distinct as strings, which is what the buffer keeps.
  ghost predicate DistinctStringPoints(ps: seq<Property>) {
    forall i, j :: 0 <= i < j < |ps| ==> ps[i].device != ps[j].device || ps[i].key != ps[j].key
  }

  lemma MembersCount(segment: seq<Property>)
    ensures |Members(Grouped(segment))| == |segment|
  {
    GroupedContents(segment);
    assert |multiset(segment)| == |segment| && |multiset(Members(Grouped(segment)))| == |Members(Grouped(segment))|;
  }

  lemma {:induction false} MembersReplaced(root: Root, i: nat, g: Group)
    requires i < |root| && |g.members| == |root[i].members|
    ensures |Members(root[i := g])| == |Members(root)|
    decreases |root|
  {
    if i == 0 {
      assert root[i := g][1..] == root[1..];
    } else {
      assert root[i := g][1..] == root[1..][i - 1 := g];
      MembersReplaced(root[1..], i - 1, g);
    }
  }

  lemma {:induction false} GroupWithin(root: Root, i: nat)
    requires i < |root|
    ensures multiset(root[i].members) <= multiset(Members(root))
    decreases |root|
  {
    if i == 0 {
    } else {
      GroupWithin(root[1..], i - 1);
    }
  }

  lemma CountedOnce(s: seq<Property>, whole: seq<Property>)
    requires multiset(s) <= multiset(whole) && NoDuplicates(whole)
    ensures NoDuplicates(s)
  {
    forall i, j | 0 <= i < j < |s| ensures s[i] != s[j] {
      if s[i] == s[j] {
        assert s == s[..i] + [s[i]] + s[i + 1..j] + [s[j]] + s[j + 1..];
        assert multiset(whole)[s[i]] >= 2;
        OnceOnly(whole, s[i]);
      }
    }
  }

  lemma {:induction false} OnceOnly(whole: seq<Property>, x: Property)
    requires NoDuplicates(whole)
    ensures multiset(whole)[x] <= 1
    decreases |whole|
  {
    if whole == [] {
    } else {
      var n := |whole| - 1;
      OnceOnly(whole[..n], x);
      assert whole == whole[..n] + [whole[n]];
      if whole[n] == x { assert x !in whole[..n]; }
    }
  }

  lemma ClashReplaces(open: seq<Property>, p: Property)
    requires DistinctStringPoints(open + [p]) && HoldsTwin(Grouped(open), p)
    ensures var root := Grouped(open);
            var reduced := TakeOut(AddTo(root, p), p);
            open != [] && reduced != root && |Members(reduced)| == |Members(root)|
  {
    var root := Grouped(open);
    var i := FindDevice(root, p.device);
    var members := root[i].members;
    GroupNoDuplicates(open, p, i);
    ClashChanges(members, p);
    FindDeviceUpdated(root, i, members + [p], p.device);
    var left := DeleteKey(members + [p], p.key);
    assert TakeOut(AddTo(root, p), p) == root[i := root[i].(members := left)];
    MembersReplaced(root, i, root[i].(members := left));
  }

  lemma GroupNoDuplicates(open: seq<Property>, p: Property, i: nat)
    requires DistinctStringPoints(open + [p]) && i < |Grouped(open)|
    ensures NoDuplicates(Grouped(open)[i].members + [p])
  {
    var members := Grouped(open)[i].members;
    var all := open + [p];
    forall a, b | 0 <= a < b < |all| ensures all[a] != all[b] {}
    GroupedContents(open);
    GroupWithin(Grouped(open), i);
    assert multiset(members + [p]) == multiset(members) + multiset{p};
    assert multiset(all) == multiset(open) + multiset{p};
    CountedOnce(members + [p], all);
  }

  // Objects fix their segments: a cut of the input into them is the one the loop made.
  lemma {:induction false} SameCut(a: seq<seq<Property>>, b: seq<seq<Property>>, open: seq<Property>, k: nat)
    requires |a| < |b| && k <= |a| && forall i :: 0 <= i < |a| ==> |a[i]| == |b[i]|
    requires |b[|a|]| == |open| && Flatten(a[k..]) + open <= Flatten(b[k..])
    ensures b[|a|] == open
    decreases |a| - k
  {
    assert Flatten(b[k..]) == b[k] + Flatten(b[k + 1..]) by { assert b[k..][1..] == b[k + 1..]; }
    if k == |a| {
      assert a[k..] == [];
      assert open == Flatten(b[k..])[..|open|] == b[k];
    } else {
      assert Flatten(a[k..]) == a[k] + Flatten(a[k + 1..]) by { assert a[k..][1..] == a[k + 1..]; }
      var rest := Flatten(a[k + 1..]) + open;
      assert Flatten(a[k..]) + open == a[k] + rest;
      assert rest == (a[k] + rest)[|a[k]|..];
      assert rest <= Flatten(b[k + 1..]) by {
        assert Flatten(b[k + 1..]) == Flatten(b[k..])[|b[k]|..];
      }
      SameCut(a, b, open, k + 1);
    }
  }

  lemma StepExtends(s: State, p: Property, publish: Publish<Root>)
    ensures s.attempts <= Step(s, p, publish).attempts
  {}

  lemma ClashPublished(s: State, p: Property, publish: Publish<Root>)
    requires s.inPack > 0 && Clashes(s.root, p)
    ensures Step(s, p, publish).attempts == s.attempts + [TakeOut(AddTo(s.root, p), p)]
  {}

  lemma StepGrows(s: State, p: Property, publish: Publish<Root>)
    ensures s.attempts <= Step(s, p, publish).attempts
    ensures s.inPack > 0 && Clashes(s.root, p) ==>
              Step(s, p, publish).attempts == s.attempts + [TakeOut(AddTo(s.root, p), p)]
  {
    StepExtends(s, p, publish);
    if s.inPack > 0 && Clashes(s.root, p) { ClashPublished(s, p, publish); }
  }

  lemma {:induction false} AttemptsGrow(ps: seq<Property>, n: nat, publish: Publish<Root>)
    requires n <= |ps|
    ensures Loop(ps[..n], publish).attempts <= Loop(ps, publish).attempts
    decreases |ps|
  {
    if n == |ps| {
      assert ps[..n] == ps;
    } else {
      var rest := ps[..|ps| - 1];
      assert rest[..n] == ps[..n];
      AttemptsGrow(rest, n, publish);
      StepGrows(Loop(rest, publish), ps[|ps| - 1], publish);
    }
  }

  lemma {:induction false} FirstClash(ps: seq<Property>, publish: Publish<Root>) returns (n: nat)
    requires !ClashFree(ps, publish)
    ensures n < |ps| && ClashFree(ps[..n], publish)
    ensures Loop(ps[..n], publish).status.Running? && Clashes(Loop(ps[..n], publish).root, ps[n])
    decreases |ps|
  {
    n := |ps| - 1;
    if !ClashFree(ps[..n], publish) {
      var whole := ps[..n];
      n := FirstClash(whole, publish);
      assert whole[..n] == ps[..n];
    }
  }

  lemma LoopNext(ps: seq<Property>, n: nat, publish: Publish<Root>)
    requires n < |ps| && Loop(ps[..n], publish).status.Running?
    ensures Loop(ps[..n + 1], publish) == Step(Loop(ps[..n], publish), ps[n], publish)
  {
    assert ps[..n + 1][..n] == ps[..n];
  }

  lemma FinishGrows(s: State, publish: Publish<Root>)
    ensures s.attempts <= Finish(s, publish).0
  {}

  // What a clash publishes.
  lemma ClashPublishes(ps: seq<Property>, n: nat, publish: Publish<Root>)
    requires n < |ps| && Loop(ps[..n], publish).status.Running? && Loop(ps[..n], publish).inPack > 0
    requires Clashes(Loop(ps[..n], publish).root, ps[n])
    ensures var s := Loop(ps[..n], publish);
            s.attempts + [TakeOut(AddTo(s.root, ps[n]), ps[n])] <= Finish(Loop(ps, publish), publish).0
  {
    var s := Loop(ps[..n], publish);
    LoopNext(ps, n, publish);
    StepGrows(s, ps[n], publish);
    AttemptsGrow(ps, n + 1, publish);
    FinishGrows(Loop(ps, publish), publish);
  }

  // A cut of the input whose objects start like the loop's continues like the loop's.
  lemma SameObject(segments: seq<seq<Property>>, open: seq<Property>, reduced: Root, cut: seq<seq<Property>>)
    requires GroupedAll(segments) + [reduced] <= GroupedAll(cut) && Flatten(segments) + open <= Flatten(cut)
    requires |Members(reduced)| == |open|
    ensures reduced == Grouped(open)
  {
    var m := |segments|;
    forall i | 0 <= i < m ensures |segments[i]| == |cut[i]| {
      assert (GroupedAll(segments) + [reduced])[i] == GroupedAll(cut)[i];
      MembersCount(segments[i]);
      MembersCount(cut[i]);
    }
    assert (GroupedAll(segments) + [reduced])[m] == GroupedAll(cut)[m];
    MembersCount(cut[m]);
    assert segments[0..] == segments && cut[0..] == cut;
    SameCut(segments, cut, open, 0);
  }

  ghost predicate Lossless(attempts: seq<Root>, ps: seq<Property>) {
    exists segments :: attempts == GroupedAll(segments) && Flatten(segments) == ps
  }

  lemma ClashLoses(ps: seq<Property>, n: nat, publish: Publish<Root>)
    requires n < |ps| && DistinctStringPoints(ps) && ClashFree(ps[..n], publish)
    requires Loop(ps[..n], publish).status.Running? && Clashes(Loop(ps[..n], publish).root, ps[n])
    ensures !Lossless(Finish(Loop(ps, publish), publish).0, ps)
  {
    var p := ps[n];
    var segments, open := LoopSegments(ps[..n], publish);
    MembersCount(open);
    SuffixDistinctStrings(ps, Flatten(segments), open, n);
    ClashReplaces(open, p);
    ClashPublishes(ps, n, publish);
    var reduced := TakeOut(AddTo(Grouped(open), p), p);
    if Lossless(Finish(Loop(ps, publish), publish).0, ps) {
      var cut :| Finish(Loop(ps, publish), publish).0 == GroupedAll(cut) && Flatten(cut) == ps;
      SameObject(segments, open, reduced, cut);
    }
  }

  lemma SuffixDistinctStrings(ps: seq<Property>, earlier: seq<Property>, open: seq<Property>, n: nat)
    requires n < |ps| && DistinctStringPoints(ps) && earlier + open == ps[..n]
    ensures DistinctStringPoints(open + [ps[n]])
  {
    var all := open + [ps[n]];
    forall k | 0 <= k < |all| ensures all[k] == ps[|earlier| + k] {
      if k < |open| { assert (earlier + open)[|earlier| + k] == open[k]; }
    }
  }

  /** For points distinct as strings a delivered call has sent each property once and in order
      exactly when none overflows an object whose device holds its key in another case. */
  lemma LosslessIff(ps: seq<Property>, publish: Publish<Root>)
    requires DistinctStringPoints(ps) && Finish(Loop(ps, publish), publish).1 == Delivered
    ensures Lossless(Finish(Loop(ps, publish), publish).0, ps) <==> ClashFree(ps, publish)
  {
    if ClashFree(ps, publish) {
      var segments := DeliveredCutsInput(ps, publish);
    } else {
      var n := FirstClash(ps, publish);
      ClashLoses(ps, n, publish);
    }
  }

  // ---- Lengths ----

  lemma {:induction false} GroupsUpdated(root: Root, i: nat, p: Property)
    requires i < |root| && root[i].members != []
    ensures GroupsLength(root[i := root[i].(members := root[i].members + [p])]) == GroupsLength(root) + p.size + 1
    decreases |root|
  {
    var n := |root| - 1;
    var grown := root[i].members + [p];
    var root' := root[i := root[i].(members := grown)];
    if i == n {
      assert root'[..n] == root[..n];
      assert grown[..|grown| - 1] == root[i].members;
    } else {
      assert root'[..n] == root[..n][i := root[..n][i].(members := grown)];
      GroupsUpdated(root[..n], i, p);
    }
  }

  /** What a property adds to an object: itself and a comma, or its device object too. */
  lemma AddLength(root: Root, p: Property)
    requires forall g <- root :: g.members != []
    ensures RootLength(AddTo(root, p)) ==
              RootLength(root) + p.size
              + if FindDevice(root, p.device) < |root| then 1 else p.deviceSize + 3 + if root == [] then 0 else 1
  {
    var i := FindDevice(root, p.device);
    if i < |root| {
      assert root[i] in root;
      GroupsUpdated(root, i, p);
    } else {
      var g := Group(p.device, p.deviceSize, [p]);
      assert (root + [g])[..|root|] == root;
      assert [p][..0] == [] && Sum([p]) == p.size;
    }
  }

  lemma {:induction false} PrefixShorter(segment: seq<Property>, n: nat)
    requires n <= |segment|
    ensures RootLength(Grouped(segment[..n])) <= RootLength(Grouped(segment))
    decreases |segment|
  {
    if n == |segment| {
      assert segment[..n] == segment;
    } else {
      var rest := segment[..|segment| - 1];
      assert rest[..n] == segment[..n];
      PrefixShorter(rest, n);
      GroupedHolds(rest);
      AddLength(Grouped(rest), segment[|segment| - 1]);
    }
  }

  // Some property of the segment belongs to the device.
  predicate Known(segment: seq<Property>, device: string) {
    exists i :: 0 <= i < |segment| && SameName(segment[i].device, device)
  }

  lemma KnownGrows(segment: seq<Property>, p: Property, device: string)
    ensures Known(segment + [p], device) <==> Known(segment, device) || SameName(p.device, device)
  {
    var grown := segment + [p];
    if Known(segment, device) {
      var i :| 0 <= i < |segment| && SameName(segment[i].device, device);
      assert grown[i] == segment[i];
    }
    assert grown[|segment|] == p;
  }

  lemma FoundGrows(root: Root, p: Property, device: string)
    ensures FindDevice(AddTo(root, p), device) < |AddTo(root, p)| <==>
              FindDevice(root, device) < |root| || SameName(p.device, device)
  {
    var i := FindDevice(root, p.device);
    var root' := AddTo(root, p);
    assert forall k :: 0 <= k < |root| ==> root'[k].device == root[k].device;
    if SameName(p.device, device) {
      assert i < |root| ==> SameName(root'[i].device, device) by { if i < |root| { SameNameTransitive(root[i].device, p.device, device); } }
      assert i == |root| ==> root'[i].device == p.device;
    }
  }

  lemma {:induction false} KnownIff(segment: seq<Property>, device: string)
    ensures FindDevice(Grouped(segment), device) < |Grouped(segment)| <==> Known(segment, device)
    decreases |segment|
  {
    if segment == [] {
    } else {
      var rest, p := segment[..|segment| - 1], segment[|segment| - 1];
      KnownIff(rest, device);
      LastSplit(segment);
      KnownGrows(rest, p, device);
      FoundGrows(Grouped(rest), p, device);
    }
  }

  /** A device name takes the same room in any case. */
  ghost predicate SizesAgree(ps: seq<Property>) {
    forall i, j :: 0 <= i < |ps| && 0 <= j < |ps| && SameName(ps[i].device, ps[j].device) ==> ps[i].deviceSize == ps[j].deviceSize
  }

  // What q in front costs a segment.
  ghost function FrontCost(q: Property, segment: seq<Property>): nat {
    q.size + 1 + if Known(segment, q.device) then 0 else q.deviceSize + 3
  }

  lemma GrownLength(segment: seq<Property>, p: Property)
    ensures RootLength(Grouped(segment + [p])) ==
              RootLength(Grouped(segment)) + p.size
              + if Known(segment, p.device) then 1 else p.deviceSize + 3 + if segment == [] then 0 else 1
  {
    GroupedHolds(segment);
    GroupedGrow(segment, p);
    AddLength(Grouped(segment), p);
    KnownIff(segment, p.device);
    if segment != [] { GroupedNonEmpty(segment); }
  }

  lemma GroupedNonEmpty(segment: seq<Property>)
    requires segment != []
    ensures Grouped(segment) != []
  {}

  lemma SameNameSymmetric(a: string, b: string)
    ensures SameName(a, b) == SameName(b, a)
  {}

  // One more property behind both segments keeps q's cost between them.
  lemma CostStays(q: Property, p: Property, short: int, long: int, first: bool, knowsP: bool, knowsQ: bool, same: bool)
    requires same ==> q.deviceSize == p.deviceSize && knowsP == knowsQ
    requires if first then !knowsP && !knowsQ && long == short + q.size + q.deviceSize + 3
             else long >= short + q.size + 1 + if knowsQ then 0 else q.deviceSize + 3
    ensures long + p.size + (if knowsP || same then 1 else p.deviceSize + 4)
            >= short + p.size + (if knowsP then 1 else p.deviceSize + 3 + if first then 0 else 1)
               + q.size + 1 + if knowsQ || same then 0 else q.deviceSize + 3
  {}

  lemma AgreeingFront(q: Property, rest: seq<Property>, p: Property)
    requires SizesAgree([q] + (rest + [p]))
    ensures [q] + (rest + [p]) == ([q] + rest) + [p]
    ensures SizesAgree([q] + rest) && (SameName(q.device, p.device) ==> q.deviceSize == p.deviceSize)
  {
    var all := [q] + (rest + [p]);
    assert all[0] == q && all[|rest| + 1] == p;
    assert forall i :: 0 <= i < |[q] + rest| ==> ([q] + rest)[i] == all[i];
  }

  lemma {:induction false} PrependLength(q: Property, segment: seq<Property>)
    requires segment != [] && SizesAgree([q] + segment)
    ensures RootLength(Grouped([q] + segment)) >= RootLength(Grouped(segment)) + FrontCost(q, segment)
    decreases |segment|
  {
    var rest, p := segment[..|segment| - 1], segment[|segment| - 1];
    LastSplit(segment);
    AgreeingFront(q, rest, p);
    if rest == [] {
      assert [q] + rest == [] + [q];
      GrownLength([], q);
    } else {
      PrependLength(q, rest);
    }
    PrependStep(q, rest, p);
  }

  lemma PrependStep(q: Property, rest: seq<Property>, p: Property)
    requires SameName(q.device, p.device) ==> q.deviceSize == p.deviceSize
    requires var long, short := RootLength(Grouped([q] + rest)), RootLength(Grouped(rest));
             if rest == [] then long == short + q.size + q.deviceSize + 3 else long >= short + FrontCost(q, rest)
    ensures RootLength(Grouped(([q] + rest) + [p])) >= RootLength(Grouped(rest + [p])) + FrontCost(q, rest + [p])
  {
    var knowsP, knowsQ, same := Known(rest, p.device), Known(rest, q.device), SameName(q.device, p.device);
    GrownLength(rest, p);
    GrownLength([q] + rest, p);
    KnownGrows(rest, p, q.device);
    KnownFront(q, rest, p.device);
    SameNameSymmetric(p.device, q.device);
    KnownThrough(rest, q.device, p.device);
    CostStays(q, p, RootLength(Grouped(rest)), RootLength(Grouped([q] + rest)), rest == [], knowsP, knowsQ, same);
  }

  lemma KnownFront(q: Property, segment: seq<Property>, device: string)
    ensures Known([q] + segment, device) <==> Known(segment, device) || SameName(q.device, device)
  {
    var all := [q] + segment;
    assert all[0] == q;
    if Known(segment, device) {
      var i :| 0 <= i < |segment| && SameName(segment[i].device, device);
      assert all[i + 1] == segment[i];
    }
    assert forall i :: 0 < i < |all| ==> all[i] == segment[i - 1];
  }

  lemma KnownThrough(segment: seq<Property>, a: string, b: string)
    ensures SameName(a, b) ==> (Known(segment, a) <==> Known(segment, b))
  {
    if SameName(a, b) {
      SameNameSymmetric(a, b);
      forall i | 0 <= i < |segment| ensures SameName(segment[i].device, a) <==> SameName(segment[i].device, b) {
        if SameName(segment[i].device, a) { SameNameTransitive(segment[i].device, a, b); }
        if SameName(segment[i].device, b) { SameNameTransitive(segment[i].device, b, a); }
      }
    }
  }

  lemma {:induction false} SuffixShorter(a: seq<Property>, b: seq<Property>)
    requires b != [] && SizesAgree(a + b)
    ensures RootLength(Grouped(b)) <= RootLength(Grouped(a + b))
  {
    if a == [] {
      assert a + b == b;
    } else {
      var rest := a[1..] + b;
      assert a + b == [a[0]] + rest;
      assert SizesAgree(rest) by { assert forall i :: 0 <= i < |rest| ==> rest[i] == (a + b)[i + 1]; }
      SuffixShorter(a[1..], b);
      PrependLength(a[0], rest);
    }
  }

  // ---- Fewest packets ----

  ghost predicate Fits(s: seq<Property>) { RootLength(Grouped(s)) <= MAX_PAYLOAD && SizesAgree(s) }

  lemma PartsAgree(a: seq<Property>, b: seq<Property>)
    requires SizesAgree(a + b)
    ensures SizesAgree(a) && SizesAgree(b)
  {
    assert forall i :: 0 <= i < |a| ==> a[i] == (a + b)[i];
    assert forall i :: 0 <= i < |b| ==> b[i] == (a + b)[|a| + i];
  }

  lemma FrontShorter(a: seq<Property>, b: seq<Property>)
    ensures RootLength(Grouped(a)) <= RootLength(Grouped(a + b))
  {
    assert (a + b)[..|a|] == a;
    PrefixShorter(a + b, |a|);
  }

  lemma PartsShorter()
    ensures PartsFit(Fits)
  {
    forall a: seq<Property>, b: seq<Property> ensures PartFits(Fits, a, b) {
      if Fits(a + b) {
        PartsAgree(a, b);
        if a != [] { FrontShorter(a, b); }
        if b != [] { SuffixShorter(a, b); }
      }
    }
  }

  // A running loop has cut its input greedily.
  ghost predicate IsGreedy(s: State, ps: seq<Property>) {
    var (closed, open) := Greedy(ps, Fits);
    s.status.Running? ==> s.attempts == GroupedAll(closed) && s.root == Grouped(open) && s.inPack == |open|
  }

  lemma StepIsGreedy(s: State, p: Property, publish: Publish<Root>, ps: seq<Property>)
    requires IsGreedy(s, ps) && s.status.Running? && Bounded(s) && !Clashes(s.root, p) && SizesAgree(ps + [p])
    ensures IsGreedy(Step(s, p, publish), ps + [p])
  {
    var (closed, open) := Greedy(ps, Fits);
    StepIs(s, p, publish);
    GreedyStep(ps, p, Fits);
    GreedyCuts(ps, Fits);
    GroupedGrow(open, p);
    SizesAgreeSuffix(Flatten(closed), open, ps, p);
    GroupedAllAppend(closed, open);
    GroupedGrow([], p);
    assert [] + [p] == [p];
  }

  lemma SizesAgreeSuffix(front: seq<Property>, open: seq<Property>, ps: seq<Property>, p: Property)
    requires front + open == ps && SizesAgree(ps + [p])
    ensures SizesAgree(open + [p])
  {
    var all, part := ps + [p], open + [p];
    forall i | 0 <= i < |part| ensures part[i] == all[|front| + i] {
      if i < |open| { assert (front + open)[|front| + i] == open[i]; }
    }
  }

  lemma {:induction false} LoopIsGreedy(ps: seq<Property>, publish: Publish<Root>)
    requires ClashFree(ps, publish) && SizesAgree(ps)
    ensures IsGreedy(Loop(ps, publish), ps)
    decreases |ps|
  {
    if ps == [] {
    } else {
      var rest, p := ps[..|ps| - 1], ps[|ps| - 1];
      LoopIsGreedy(rest, publish);
      LoopBounded(rest, publish);
      LoopLast(ps, publish);
      LastSplit(ps);
      if Loop(rest, publish).status.Running? { StepIsGreedy(Loop(rest, publish), p, publish, rest); }
    }
  }

  /** No cut into objects of at most 1024 bytes uses fewer packets than a delivered call. */
  lemma FewestPackets(ps: seq<Property>, publish: Publish<Root>, segments: seq<seq<Property>>)
    requires ClashFree(ps, publish) && SizesAgree(ps) && Cuts(segments, ps, Fits)
    requires Finish(Loop(ps, publish), publish).1 == Delivered
    ensures |Finish(Loop(ps, publish), publish).0| <= |segments|
  {
    LoopIsGreedy(ps, publish);
    PartsShorter();
    FewestSegments(ps, segments, Fits);
  }

  // ---- One packet ----

  /** A buffer that fits one object never overflows. */
  lemma {:induction false} LoopOfOne(ps: seq<Property>, publish: Publish<Root>)
    requires RootLength(Grouped(ps)) <= MAX_PAYLOAD
    ensures Loop(ps, publish) == State([], Grouped(ps), |ps|, Running)
    decreases |ps|
  {
    if ps == [] {
    } else {
      PrefixShorter(ps, |ps| - 1);
      LoopOfOne(ps[..|ps| - 1], publish);
      LoopLast(ps, publish);
    }
  }

  // Every packet of a delivered call was taken.
  lemma {:induction false} LoopTaken(ps: seq<Property>, publish: Publish<Root>)
    ensures Loop(ps, publish).status.Running? ==> AllTaken(publish, Loop(ps, publish).attempts)
    decreases |ps|
  {
    if ps == [] {
    } else {
      LoopTaken(ps[..|ps| - 1], publish);
      LoopLast(ps, publish);
      if Loop(ps[..|ps| - 1], publish).status.Running? { StepTaken(Loop(ps[..|ps| - 1], publish), ps[|ps| - 1], publish); }
    }
  }

  lemma StepTaken(s: State, p: Property, publish: Publish<Root>)
    requires AllTaken(publish, s.attempts)
    ensures Step(s, p, publish).status.Running? ==> AllTaken(publish, Step(s, p, publish).attempts)
  {
    AllTakenGrow(publish, s.attempts, TakeOut(AddTo(s.root, p), p));
  }

  lemma DeliveredTaken(ps: seq<Property>, publish: Publish<Root>)
    requires Finish(Loop(ps, publish), publish).1 == Delivered
    ensures AllTaken(publish, Finish(Loop(ps, publish), publish).0)
  {
    var s := Loop(ps, publish);
    LoopTaken(ps, publish);
    AllTakenGrow(publish, s.attempts, s.root);
  }

  lemma SingleCut(segments: seq<seq<Property>>)
    ensures |segments| == 1 ==> Grouped(Flatten(segments)) in GroupedAll(segments)
  {
    if |segments| == 1 {
      assert segments[1..] == [];
      AppendNothing(segments[0]);
      assert GroupedAll(segments)[0] == Grouped(segments[0]);
    }
  }

  // The device object of a property alone in a root object.
  predicate FitsAlone(p: Property) { RootLength([Group(p.device, p.deviceSize, [p])]) <= 1024 }

  // The status says whether all packets were taken and whether some property is too big alone.
  ghost predicate StatusFits(s: State, ps: seq<Property>, publish: Publish<Root>) {
    && (s.status.PublishFailed? <==> !AllTaken(publish, s.attempts))
    && (s.status.TooBig? ==> exists i :: 0 <= i < |ps| && !FitsAlone(ps[i]))
  }

  lemma StepTooBig(s: State, p: Property, publish: Publish<Root>)
    requires s.status.Running?
    ensures Step(s, p, publish).status.TooBig? ==> !FitsAlone(p)
  {
    assert AddTo([], p) == [Group(p.device, p.deviceSize, [p])];
  }

  lemma StepRefused(s: State, p: Property, publish: Publish<Root>)
    requires s.status.Running? && AllTaken(publish, s.attempts)
    ensures Step(s, p, publish).status.PublishFailed? <==> !AllTaken(publish, Step(s, p, publish).attempts)
  {
    AllTakenGrow(publish, s.attempts, TakeOut(AddTo(s.root, p), p));
  }

  lemma StepStatus(s: State, p: Property, ps: seq<Property>, publish: Publish<Root>)
    requires s.status.Running? && StatusFits(s, ps, publish)
    ensures StatusFits(Step(s, p, publish), ps + [p], publish)
  {
    StepTooBig(s, p, publish);
    StepRefused(s, p, publish);
    assert (ps + [p])[|ps|] == p;
  }

  lemma {:induction false} LoopStatus(ps: seq<Property>, publish: Publish<Root>)
    ensures StatusFits(Loop(ps, publish), ps, publish)
    decreases |ps|
  {
    if ps != [] {
      var rest, p := ps[..|ps| - 1], ps[|ps| - 1];
      LoopStatus(rest, publish);
      LoopLast(ps, publish);
      LastSplit(ps);
      var s := Loop(rest, publish);
      if s.status.Running? {
        StepStatus(s, p, rest, publish);
      } else if s.status.TooBig? {
        var i :| 0 <= i < |rest| && !FitsAlone(rest[i]);
        assert ps[i] == rest[i];
      }
    }
  }

  /** A call fails to publish exactly when one of its packets was refused, and reports a property
      as too big only when one does not fit an object of its own. */
  lemma StatusIs(ps: seq<Property>, publish: Publish<Root>)
    ensures var (attempts, status) := Finish(Loop(ps, publish), publish);
            && (status == PublishFailed <==> !AllTaken(publish, attempts))
            && (status == Delivered ==> AllTaken(publish, attempts))
            && (status == TooBig ==> exists i :: 0 <= i < |ps| && !FitsAlone(ps[i]))
            && status != Running
  {
    var s := Loop(ps, publish);
    LoopStatus(ps, publish);
    AllTakenGrow(publish, s.attempts, s.root);
  }

  /** A buffer that does not fit one object takes at least two packets to deliver. */
  lemma LargeTakesTwo(ps: seq<Property>, publish: Publish<Root>)
    requires ClashFree(ps, publish) && RootLength(Grouped(ps)) > MAX_PAYLOAD
    requires Finish(Loop(ps, publish), publish).1 == Delivered
    ensures |Finish(Loop(ps, publish), publish).0| >= 2
  {
    var segments := DeliveredCutsInput(ps, publish);
    SingleCut(segments);
  }
}
