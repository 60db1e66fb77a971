/** Building the clients of the client list file and dealing them out to submitter threads. */
module ClientLists {
  import opened Options
  import opened RoundRobin
  import opened JsonWalk
  import opened ClientRange

  /** The entries, counted from 0, that the range parameter selects among the first m; the
      parameter counts clients from 1. */
  function Picked(m: nat, crange: Option<string>): (r: seq<nat>)
    ensures forall k :: 0 <= k < |r| ==> r[k] < m
  {
    if m == 0 then []
    else if InRange(m, crange) then Picked(m - 1, crange) + [m - 1]
    else Picked(m - 1, crange)
  }

  /** They are exactly the ones in range, each once and in file order. */
  lemma {:induction false} PickedExactly(m: nat, crange: Option<string>)
    ensures forall i: nat :: i in Picked(m, crange) <==> i < m && InRange(i + 1, crange)
    ensures forall j, k :: 0 <= j < k < |Picked(m, crange)| ==> Picked(m, crange)[j] < Picked(m, crange)[k]
  {
    hide InRange;
    if m > 0 {
      PickedExactly(m - 1, crange);
      var r := Picked(m - 1, crange);
      assert forall i: nat :: i in r + [m - 1] <==> i in r || i == m - 1;
    }
  }

  /** The items were dealt out in turn: item j is number j div n of list j mod n. */
  ghost predicate Dealt<T>(lists: seq<seq<T>>, items: seq<T>) {
    && lists != []
    && (forall k :: 0 <= k < |lists| ==> |lists[k]| == Share(|items|, |lists|, k))
    && (forall j :: 0 <= j < |items| ==> At(lists, j, items[j]))
  }

  ghost predicate At<T>(lists: seq<seq<T>>, j: nat, x: T)
    requires lists != []
  {
    var n := |lists|;
    j / n < |lists[j % n]| && lists[j % n][j / n] == x
  }

  lemma DealtNext<T>(lists: seq<seq<T>>, items: seq<T>, x: T)
    requires Dealt(lists, items)
    ensures var k := |items| % |lists|;
            Dealt(lists[k := lists[k] + [x]], items + [x])
  {
    var n, c := |lists|, |items|;
    var more := lists[c % n := lists[c % n] + [x]];
    forall k | 0 <= k < n
      ensures |more[k]| == Share(c + 1, n, k)
    {
      ShareNext(c, n, k);
    }
    ShareNext(c, n, c % n);
    forall j | 0 <= j <= c
      ensures At(more, j, (items + [x])[j])
    {
      if j < c {
        assert At(lists, j, items[j]);
      }
    }
  }

  lemma DealtNone<T>(lists: seq<seq<T>>)
    requires lists != [] && forall k :: 0 <= k < |lists| ==> lists[k] == []
    ensures Dealt(lists, [])
  {
  }

  /** No thread gets two clients more than another, and together they get them all. */
  lemma DealtEvenly<T>(lists: seq<seq<T>>, items: seq<T>)
    requires Dealt(lists, items)
    ensures forall j, k :: 0 <= j < |lists| && 0 <= k < |lists| ==> |lists[j]| <= |lists[k]| + 1
    ensures SumShares(|items|, |lists|, |lists|) == |items|
  {
    SharesComplete(|items|, |lists|);
  }

  /** Where the picked entries stand. */
  ghost function Positions(root: Json, picked: seq<nat>): (r: seq<nat>)
    requires root.Node? && forall i :: 0 <= i < |picked| ==> picked[i] < |root.kids|
    ensures |r| == |picked|
  {
    seq(|picked|, i requires 0 <= i < |picked| => ChildPositions(root.kids, 1)[picked[i]])
  }

  lemma NonePicked(root: Json, crange: Option<string>)
    requires root.Node?
    ensures Positions(root, Picked(0, crange)) == []
  {
  }

  /** The next entry is picked exactly when it is in range. */
  lemma PositionsNext(root: Json, crange: Option<string>, i: nat)
    requires root.Node? && i < |root.kids|
    ensures var before, after := Picked(i, crange), Picked(i + 1, crange);
            if InRange(i + 1, crange)
            then
              && |after| == |before| + 1
              && Positions(root, after) == Positions(root, before) + [ChildPositions(root.kids, 1)[i]]
            else after == before
  {
    hide InRange, ChildPositions;
  }

  /** The loop over the client list file. `bad` holds the positions of the client entries that
      cannot be processed; the first one in range ends the loop. */
  method BuildClientLists(ents: seq<Entry>, crange: Option<string>, threads: nat, bad: set<nat>, ghost root: Json)
    returns (ok: bool, lists: seq<seq<nat>>, created: nat, skipped: nat, processed: nat)
    requires threads > 0 && ents == Flatten(root)
    ensures ok ==> root.Node? && root.isArray
    ensures !(root.Node? && root.isArray) ==> processed == 0
    ensures root.Node? && root.isArray ==>
              && processed <= |root.kids|
              && created == |Picked(processed, crange)| && created + skipped == processed
              && |lists| == threads && Dealt(lists, Positions(root, Picked(processed, crange)))
              && (ok <==> processed == |root.kids|)
              && (forall i :: 0 <= i < processed && InRange(i + 1, crange) ==> ChildPositions(root.kids, 1)[i] !in bad)
              && (!ok ==> InRange(processed + 1, crange) && ChildPositions(root.kids, 1)[processed] in bad)
  {
    hide Flatten, FlattenAll, ChildPositions, Holds, Skip, InRange, Dealt, Share, Positions;
    lists := seq(threads, _ => []);
    created, skipped, processed, ok := 0, 0, 0, true;
    RootKind(root);
    if !ents[0].kind.Array? {
      return false, lists, 0, 0, 0;
    }
    assert Holds(ents, 0, root) by {
      WholeDocument(root);
    }
    DealtNone(lists);
    assert Positions(root, Picked(0, crange)) == [] by {
      NonePicked(root, crange);
    }
    NoChildYet(root.kids, 1);
    var pos: nat := 1;
    ChildAt(ents, 0, root, 0);
    while pos < |ents|
      invariant processed <= |root.kids| && pos == 1 + |FlattenAll(root.kids[..processed])|
      invariant ok && created == |Picked(processed, crange)| && created + skipped == processed
      invariant |lists| == threads && Dealt(lists, Positions(root, Picked(processed, crange)))
      invariant forall i :: 0 <= i < processed && InRange(i + 1, crange) ==> ChildPositions(root.kids, 1)[i] !in bad
      decreases |root.kids| - processed
    {
      ChildAt(ents, 0, root, processed);
      PositionIs(root.kids, processed, 1);
      PositionsNext(root, crange, processed);
      ghost var items := Positions(root, Picked(processed, crange));
      var inRange := IsClientInCRange(processed + 1, crange);
      if inRange {
        if pos in bad {
          return false, lists, created, skipped, processed;
        }
        var k := created % threads;
        DealtNext(lists, items, pos);
        lists := lists[k := lists[k] + [pos]];
        created := created + 1;
      } else {
        skipped := skipped + 1;
      }
      pos := pos + Skip(ents[pos]);
      processed := processed + 1;
    }
    ChildAt(ents, 0, root, processed);
  }

  lemma WholeDocument(root: Json)
    ensures Holds(Flatten(root), 0, root)
  {
  }

  lemma RootKind(root: Json)
    ensures Flatten(root)[0].kind.Array? <==> root.Node? && root.isArray
  {
  }

  lemma {:induction false} PositionIs(kids: seq<Json>, k: nat, start: nat)
    requires k < |kids|
    ensures ChildPositions(kids, start)[k] == start + |FlattenAll(kids[..k])|
  {
    var rest := kids[..|kids| - 1];
    if k < |rest| {
      PositionIs(rest, k, start);
      assert rest[..k] == kids[..k];
    } else {
      assert kids[..k] == rest;
    }
  }
}
