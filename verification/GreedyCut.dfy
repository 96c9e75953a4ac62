/** Cutting a sequence into segments that fit, greedily: the scheme of both packetisers of
    main/thingscloud/thingscloud_adapter.c, and why no other cut has fewer segments. */
module GreedyCut {

  function Flatten<T>(segments: seq<seq<T>>): seq<T> {
    if segments == [] then [] else segments[0] + Flatten(segments[1..])
  }

  lemma {:induction false} FlattenAppend<T>(a: seq<seq<T>>, s: seq<T>)
    ensures Flatten(a + [s]) == Flatten(a) + s
  {
    if a == [] {
      assert a + [s] == [s] && [s][1..] == [];
      assert Flatten([s]) == s + Flatten([s][1..]);
    } else {
      assert (a + [s])[1..] == a[1..] + [s];
      FlattenAppend(a[1..], s);
    }
  }

  lemma {:induction false} FlattenPrefix<T>(a: seq<seq<T>>, b: seq<seq<T>>)
    requires a <= b
    ensures Flatten(a) <= Flatten(b)
  {
    if a == [] {
    } else {
      FlattenPrefix(a[1..], b[1..]);
    }
  }

  lemma LastSplit<T>(s: seq<T>)
    requires s != []
    ensures s == s[..|s| - 1] + [s[|s| - 1]]
  {}

  lemma AppendNothing<T>(s: seq<T>)
    ensures s + [] == s
  {}

  lemma Regroup<T>(a: seq<T>, b: seq<T>, c: seq<T>)
    ensures a + (b + c) == a + b + c
  {}

  /** The closed segments and the open one: an element that does not fit behind the open
      segment closes it and starts the next. */
  function Greedy<T>(ps: seq<T>, fits: seq<T> -> bool): (seq<seq<T>>, seq<T>) {
    if |ps| == 0 then ([], [])
    else
      var (closed, open) := Greedy(ps[..|ps| - 1], fits);
      var p := ps[|ps| - 1];
      if |open| > 0 && !fits(open + [p]) then (closed + [open], [p]) else (closed, open + [p])
  }

  lemma {:induction false} GreedyCuts<T>(ps: seq<T>, fits: seq<T> -> bool)
    ensures var (closed, open) := Greedy(ps, fits);
            && Flatten(closed) + open == ps && (forall s <- closed :: s != []) && (ps != [] ==> open != [])
    decreases |ps|
  {
    if ps == [] {
    } else {
      var rest, p := ps[..|ps| - 1], ps[|ps| - 1];
      GreedyCuts(rest, fits);
      LastSplit(ps);
      var (closed, open) := Greedy(rest, fits);
      FlattenAppend(closed, open);
      Regroup(Flatten(closed), open, [p]);
    }
  }

  lemma GreedyStep<T>(ps: seq<T>, p: T, fits: seq<T> -> bool)
    ensures var (closed, open) := Greedy(ps, fits);
            Greedy(ps + [p], fits) == if |open| > 0 && !fits(open + [p]) then (closed + [open], [p]) else (closed, open + [p])
  {
    assert (ps + [p])[..|ps|] == ps;
  }

  lemma {:induction false} GreedyFits<T>(ps: seq<T>, fits: seq<T> -> bool)
    requires forall i :: 0 <= i < |ps| ==> fits([ps[i]])
    ensures var (closed, open) := Greedy(ps, fits); AllFit(closed, fits) && (open != [] ==> fits(open))
    decreases |ps|
  {
    if ps == [] {
    } else {
      var rest, p := ps[..|ps| - 1], ps[|ps| - 1];
      forall i | 0 <= i < |rest| ensures fits([rest[i]]) { assert rest[i] == ps[i]; }
      GreedyFits(rest, fits);
      LastSplit(ps);
      GreedyStep(rest, p, fits);
      if Greedy(rest, fits).1 == [] { assert [] + [p] == [p]; }
    }
  }

  // A cut into segments that fit.
  ghost predicate Cuts<T>(segments: seq<seq<T>>, ps: seq<T>, fits: seq<T> -> bool) {
    Flatten(segments) == ps && AllFit(segments, fits)
  }

  ghost predicate AllFit<T>(segments: seq<seq<T>>, fits: seq<T> -> bool) {
    forall i :: 0 <= i < |segments| ==> segments[i] != [] && fits(segments[i])
  }

  ghost predicate PartFits<T>(fits: seq<T> -> bool, a: seq<T>, b: seq<T>) {
    fits(a + b) ==> (a != [] ==> fits(a)) && (b != [] ==> fits(b))
  }

  // What fits, fits in parts.
  ghost predicate PartsFit<T(!new)>(fits: seq<T> -> bool) {
    forall a: seq<T>, b: seq<T> :: PartFits(fits, a, b)
  }

  lemma LastOf<T>(segments: seq<seq<T>>)
    requires segments != []
    ensures var n := |segments| - 1;
            Flatten(segments) == Flatten(segments[..n]) + segments[n] && |Flatten(segments)| >= |segments[n]|
  {
    var n := |segments| - 1;
    LastSplit(segments);
    FlattenAppend(segments[..n], segments[n]);
  }

  lemma SplitEnd<T>(head: seq<T>, last: seq<T>, ps: seq<T>, p: T)
    requires head + last == ps + [p] && last != []
    ensures last == last[..|last| - 1] + [p] && head + last[..|last| - 1] == ps
  {
    assert (head + last)[|head| + |last| - 1] == last[|last| - 1];
    assert head + last[..|last| - 1] == (head + last)[..|ps|];
    assert (ps + [p])[..|ps|] == ps;
  }

  // Dropping the last element from a cut.
  lemma Shorten<T(!new)>(segments: seq<seq<T>>, ps: seq<T>, p: T, fits: seq<T> -> bool) returns (shorter: seq<seq<T>>)
    requires Cuts(segments, ps + [p], fits) && PartsFit(fits)
    ensures segments != [] && Cuts(shorter, ps, fits)
    ensures var last := segments[|segments| - 1];
            if |last| == 1 then |shorter| == |segments| - 1
            else |shorter| == |segments| && last == shorter[|shorter| - 1] + [p]
  {
    assert segments != [];
    var n := |segments| - 1;
    var last := segments[n];
    LastOf(segments);
    SplitEnd(Flatten(segments[..n]), last, ps, p);
    shorter := segments[..n];
    if |last| > 1 {
      var l := last[..|last| - 1];
      assert PartFits(fits, l, [p]);
      shorter := shorter + [l];
      FlattenAppend(segments[..n], l);
    } else {
      assert last[..|last| - 1] == [] && Flatten(segments[..n]) + [] == Flatten(segments[..n]);
    }
  }

  lemma EndsWith<T>(head: seq<T>, last: seq<T>, front: seq<T>, open: seq<T>)
    requires head + last == front + open && |last| >= |open|
    ensures last == last[..|last| - |open|] + open
  {
    var all := head + last;
    assert last == all[|all| - |last|..];
    assert open == all[|all| - |open|..];
  }

  // The greedy cut is never behind any other, and at a tie its open segment is the shorter.
  lemma {:induction false} GreedyStaysAhead<T(!new)>(ps: seq<T>, segments: seq<seq<T>>, fits: seq<T> -> bool)
    requires PartsFit(fits) && Cuts(segments, ps, fits)
    ensures var (closed, open) := Greedy(ps, fits);
            && |segments| >= |closed| + (if open != [] then 1 else 0)
            && (|segments| == |closed| + 1 && open != [] ==> |segments[|segments| - 1]| >= |open|)
    decreases |ps|
  {
    if ps == [] {
    } else {
      var rest, p := ps[..|ps| - 1], ps[|ps| - 1];
      LastSplit(ps);
      var shorter := Shorten(segments, rest, p, fits);
      GreedyStaysAhead(rest, shorter, fits);
      GreedyCuts(rest, fits);
      GreedyAhead(rest, p, segments, shorter, fits);
    }
  }

  lemma GreedyAhead<T(!new)>(rest: seq<T>, p: T, segments: seq<seq<T>>, shorter: seq<seq<T>>, fits: seq<T> -> bool)
    requires PartsFit(fits) && segments != [] && Cuts(shorter, rest, fits)
    requires AllFit(segments, fits)
    requires var last := segments[|segments| - 1];
             if |last| == 1 then |shorter| == |segments| - 1
             else |shorter| == |segments| && last == shorter[|shorter| - 1] + [p]
    requires var (closed, open) := Greedy(rest, fits);
             && Flatten(closed) + open == rest && (rest != [] ==> open != [])
             && |shorter| >= |closed| + (if open != [] then 1 else 0)
             && (|shorter| == |closed| + 1 && open != [] ==> |shorter[|shorter| - 1]| >= |open|)
    ensures var (closed, open) := Greedy(rest, fits);
            var (closed', open') := if open != [] && !fits(open + [p]) then (closed + [open], [p]) else (closed, open + [p]);
            && |segments| >= |closed'| + 1
            && (|segments| == |closed'| + 1 ==> |segments[|segments| - 1]| >= |open'|)
  {
    var (closed, open) := Greedy(rest, fits);
    var last := segments[|segments| - 1];
    if shorter != [] { LastOf(shorter); }
    if |last| > 1 && open != [] && |shorter| == |closed| + 1 {
      var l := shorter[|shorter| - 1];
      EndsWith(Flatten(shorter[..|shorter| - 1]), l, Flatten(closed), open);
      var front := l[..|l| - |open|];
      assert last == front + (open + [p]);
      assert PartFits(fits, front, open + [p]);
    }
  }

  /** No cut into segments that fit has fewer of them. */
  lemma FewestSegments<T(!new)>(ps: seq<T>, segments: seq<seq<T>>, fits: seq<T> -> bool)
    requires PartsFit(fits) && Cuts(segments, ps, fits)
    ensures var (closed, open) := Greedy(ps, fits); |closed| + (if open != [] then 1 else 0) <= |segments|
  {
    GreedyStaysAhead(ps, segments, fits);
  }
}
