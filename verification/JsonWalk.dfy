/** Walking a JSON document stored as a flat array of entries in preorder, where the entry of
    an object or array counts its descendants. */
module JsonWalk {

  datatype Kind = Object | Array | Scalar

  /** For a scalar, `count` is not a count: an integer keeps its value there. */
  datatype Entry = Entry(kind: Kind, count: int)

  datatype Json = Value(n: int) | Node(isArray: bool, kids: seq<Json>)

  function Flatten(j: Json): (r: seq<Entry>)
    ensures r != []
    decreases j, 1
  {
    match j
    case Value(n) => [Entry(Scalar, n)]
    case Node(isArray, kids) =>
      [Entry(if isArray then Array else Object, |FlattenAll(kids)|)] + FlattenAll(kids)
  }

  function FlattenAll(kids: seq<Json>): seq<Entry>
    decreases kids, 0
  {
    if kids == [] then [] else FlattenAll(kids[..|kids| - 1]) + Flatten(kids[|kids| - 1])
  }

  /** Where the direct children of a node stand, if the first one stands at `start`. */
  function ChildPositions(kids: seq<Json>, start: nat): (r: seq<nat>)
    ensures |r| == |kids|
  {
    if kids == [] then []
    else
      var rest := kids[..|kids| - 1];
      ChildPositions(rest, start) + [start + |FlattenAll(rest)|]
  }

  /** The entries at `at` are those of the document. */
  ghost predicate Holds(ents: seq<Entry>, at: nat, j: Json) {
    at + |Flatten(j)| <= |ents| && ents[at..at + |Flatten(j)|] == Flatten(j)
  }

  /** The rule by which every loop moves on. */
  function Skip(e: Entry): int {
    if e.kind.Object? || e.kind.Array? then e.count + 1 else 1
  }

  lemma {:induction false} PrefixFits(kids: seq<Json>, k: nat)
    requires k <= |kids|
    ensures |FlattenAll(kids[..k])| <= |FlattenAll(kids)|
    ensures FlattenAll(kids)[..|FlattenAll(kids[..k])|] == FlattenAll(kids[..k])
    ensures k < |kids| ==> |FlattenAll(kids[..k])| + |Flatten(kids[k])| <= |FlattenAll(kids)|
    ensures k < |kids| ==> FlattenAll(kids)[|FlattenAll(kids[..k])|] == Flatten(kids[k])[0]
  {
    if k == |kids| {
      assert kids[..k] == kids;
    } else {
      var rest := kids[..|kids| - 1];
      assert rest[..k] == kids[..k];
      PrefixFits(rest, k);
      if k == |rest| {
        assert kids[..k] == rest;
      } else {
        assert rest[k] == kids[k];
      }
    }
  }

  /** The entry of a child tells how long the child is. */
  lemma SkipIsSize(j: Json)
    ensures Skip(Flatten(j)[0]) == |Flatten(j)|
  {
  }

  /** What stands where, inside the node at `at`. */
  lemma ChildAt(ents: seq<Entry>, at: nat, j: Json, k: nat)
    requires j.Node? && Holds(ents, at, j) && k <= |j.kids|
    ensures var pos := at + 1 + |FlattenAll(j.kids[..k])|;
            && pos <= at + |Flatten(j)| <= |ents|
            && (k < |j.kids| ==> pos < |ents| && Skip(ents[pos]) == |Flatten(j.kids[k])|)
            && (k < |j.kids| ==> pos + |Flatten(j.kids[k])| == at + 1 + |FlattenAll(j.kids[..k + 1])|)
            && (pos == at + |Flatten(j)| <==> k == |j.kids|)
    ensures ents[at].count == |Flatten(j)| - 1 == |FlattenAll(j.kids)|
  {
    var kids := j.kids;
    PrefixFits(kids, k);
    assert ents[at..at + |Flatten(j)|][0] == ents[at];
    if k < |kids| {
      var off := 1 + |FlattenAll(kids[..k])|;
      assert kids[..k + 1][..k] == kids[..k];
      assert Flatten(j)[off] == FlattenAll(kids)[off - 1];
      assert ents[at..at + |Flatten(j)|][off] == ents[at + off];
      SkipIsSize(kids[k]);
    } else {
      assert kids[..k] == kids;
    }
  }

  lemma PositionsNext(kids: seq<Json>, k: nat, start: nat)
    requires k < |kids|
    ensures ChildPositions(kids[..k + 1], start) == ChildPositions(kids[..k], start) + [start + |FlattenAll(kids[..k])|]
  {
    assert kids[..k + 1][..k] == kids[..k];
  }

  lemma NoChildYet(kids: seq<Json>, start: nat)
    ensures FlattenAll(kids[..0]) == [] && ChildPositions(kids[..0], start) == []
  {
  }

  /** The loop over the fields of an object: it stops after the last entry of the node. It
      visits exactly the direct children, in order, and ends right behind the node. */
  method WalkFields(ents: seq<Entry>, at: nat, ghost j: Json) returns (visited: seq<nat>, end: nat)
    requires j.Node? && Holds(ents, at, j)
    ensures visited == ChildPositions(j.kids, at + 1)
    ensures end == at + |Flatten(j)|
  {
    hide Flatten, FlattenAll, ChildPositions, Holds, Skip;
    ghost var k := 0;
    NoChildYet(j.kids, at + 1);
    ChildAt(ents, at, j, 0);
    var endloc := at + ents[at].count;
    var pos := at + 1;
    visited := [];
    while pos <= endloc
      invariant k <= |j.kids| && pos == at + 1 + |FlattenAll(j.kids[..k])|
      invariant visited == ChildPositions(j.kids[..k], at + 1)
      decreases |j.kids| - k
    {
      ChildAt(ents, at, j, k);
      PositionsNext(j.kids, k, at + 1);
      visited := visited + [pos];
      pos := pos + Skip(ents[pos]);
      k := k + 1;
    }
    ChildAt(ents, at, j, k);
    assert j.kids[..k] == j.kids;
    end := pos;
  }

  /** The visits end with the first position that is not accepted, and otherwise are all of them. */
  predicate UpToFirstBad(visited: seq<nat>, all: seq<nat>, accepts: nat -> bool) {
    && visited <= all
    && (forall k :: 0 <= k < |visited| - 1 ==> accepts(visited[k]))
    && (visited == all || (visited != [] && !accepts(visited[|visited| - 1])))
  }

  ghost predicate AcceptsAll(all: seq<nat>, accepts: nat -> bool) {
    forall k :: 0 <= k < |all| ==> accepts(all[k])
  }

  /** The loop over the publish topics or subscriptions of a client, given what is said of the
      topic at each position. It ends at the first bad one, and stops before the last entry of
      the array, so a last child that is a single entry is passed over. */
  method VisitTopics(ents: seq<Entry>, at: nat, accepts: nat -> bool, ghost j: Json)
    returns (visited: seq<nat>, ok: bool)
    requires IsArray(j) && Holds(ents, at, j)
    ensures var all := ChildPositions(SeenTopics(j.kids), at + 1);
            UpToFirstBad(visited, all, accepts) && (ok <==> AcceptsAll(all, accepts))
  {
    hide Flatten, FlattenAll, ChildPositions, Holds, Skip, SeenTopics, AcceptsAll, UpToFirstBad;
    ghost var k, seen := 0, SeenTopics(j.kids);
    NoChildYet(j.kids, at + 1);
    ChildAt(ents, at, j, 0);
    AcceptsNone(accepts);
    var endloc := at + ents[at].count;
    var pos := at + 1;
    visited, ok := [], true;
    while pos < endloc
      invariant k <= |seen| <= |j.kids| && pos == at + 1 + |FlattenAll(j.kids[..k])|
      invariant visited == ChildPositions(j.kids[..k], at + 1) && AcceptsAll(visited, accepts)
      decreases |j.kids| - k
    {
      ChildAt(ents, at, j, k);
      PositionsNext(j.kids, k, at + 1);
      LastChild(j.kids, k);
      SeenPrefix(j.kids, k + 1, at + 1);
      AcceptsNext(visited, pos, ChildPositions(seen, at + 1), accepts);
      visited := visited + [pos];
      if !accepts(pos) {
        return visited, false;
      }
      pos := pos + Skip(ents[pos]);
      k := k + 1;
    }
    ChildAt(ents, at, j, k);
    LastChild(j.kids, k);
    AcceptsAllUpTo(visited, accepts);
  }

  /** An entry that is not an array is an error, and so are an empty array and a bad topic. */
  method WalkTopics(ents: seq<Entry>, at: nat, accepts: nat -> bool, ghost j: Json)
    returns (visited: seq<nat>, ok: bool)
    requires Holds(ents, at, j)
    ensures !IsArray(j) ==> visited == [] && !ok
    ensures IsArray(j) ==>
              var all := ChildPositions(SeenTopics(j.kids), at + 1);
              && UpToFirstBad(visited, all, accepts)
              && (ok <==> j.kids != [] && AcceptsAll(all, accepts))
    ensures ok ==> (visited == ChildPositions(j.kids, at + 1) <==> SeenTopics(j.kids) == j.kids)
  {
    EntryTells(ents, at, j);
    hide Flatten, FlattenAll, ChildPositions, Holds, AcceptsAll, UpToFirstBad;
    if !ents[at].kind.Array? {
      return [], false;
    }
    visited, ok := VisitTopics(ents, at, accepts, j);
    if ents[at].count == 0 {
      ok := false;
    }
    if ok {
      VisitedAll(visited, ChildPositions(SeenTopics(j.kids), at + 1), accepts);
    }
  }

  lemma VisitedAll(visited: seq<nat>, all: seq<nat>, accepts: nat -> bool)
    requires UpToFirstBad(visited, all, accepts) && AcceptsAll(all, accepts)
    ensures visited == all
  {
  }

  lemma AcceptsNone(accepts: nat -> bool)
    ensures AcceptsAll([], accepts)
  {
  }

  /** One more topic was looked at. */
  lemma AcceptsNext(visited: seq<nat>, pos: nat, all: seq<nat>, accepts: nat -> bool)
    requires AcceptsAll(visited, accepts) && visited + [pos] <= all
    ensures if accepts(pos) then AcceptsAll(visited + [pos], accepts)
            else !AcceptsAll(all, accepts) && UpToFirstBad(visited + [pos], all, accepts)
  {
    assert all[|visited|] == pos;
  }

  lemma AcceptsAllUpTo(all: seq<nat>, accepts: nat -> bool)
    requires AcceptsAll(all, accepts)
    ensures UpToFirstBad(all, all, accepts)
  {
  }

  predicate IsArray(j: Json) {
    j.Node? && j.isArray
  }

  lemma EntryTells(ents: seq<Entry>, at: nat, j: Json)
    requires Holds(ents, at, j)
    ensures at < |ents| && (ents[at].kind.Array? <==> IsArray(j))
    ensures IsArray(j) ==> (ents[at].count == 0 <==> j.kids == [])
  {
    assert ents[at..at + |Flatten(j)|][0] == ents[at];
  }

  /** All children but a last one that takes a single entry: an empty object, or a value. */
  ghost function SeenTopics(kids: seq<Json>): (r: seq<Json>)
    ensures |r| <= |kids|
    ensures r == kids <==> kids == [] || |Flatten(kids[|kids| - 1])| > 1
  {
    if kids != [] && |Flatten(kids[|kids| - 1])| == 1 then kids[..|kids| - 1] else kids
  }

  /** Entries left behind the k-th child: none after the last, one before a single last. */
  lemma LastChild(kids: seq<Json>, k: nat)
    requires k <= |kids|
    ensures |FlattenAll(kids)| - |FlattenAll(kids[..k])| >= 2 ==> k < |SeenTopics(kids)|
    ensures |FlattenAll(kids)| - |FlattenAll(kids[..k])| <= 1 && k <= |SeenTopics(kids)| ==>
              kids[..k] == SeenTopics(kids)
  {
    if k == |kids| {
      assert kids[..k] == kids;
    } else {
      var n := |kids| - 1;
      PrefixFits(kids, k);
      if k < n {
        assert kids[..n][..k] == kids[..k] && kids[..n][k] == kids[k];
        PrefixFits(kids[..n], k);
      }
    }
  }

  lemma SeenPrefix(kids: seq<Json>, k: nat, start: nat)
    requires k <= |SeenTopics(kids)|
    ensures ChildPositions(kids[..k], start) <= ChildPositions(SeenTopics(kids), start)
  {
    assert SeenTopics(kids)[..k] == kids[..k];
    PositionsPrefix(SeenTopics(kids), k, start);
  }

  lemma {:induction false} PositionsPrefix(kids: seq<Json>, k: nat, start: nat)
    requires k <= |kids|
    ensures ChildPositions(kids[..k], start) <= ChildPositions(kids, start)
  {
    if k == |kids| {
      assert kids[..k] == kids;
    } else {
      var rest := kids[..|kids| - 1];
      assert rest[..k] == kids[..k];
      PositionsPrefix(rest, k, start);
    }
  }

  /** The last topic is passed over exactly when it is an empty object or array, or a value. */
  lemma LastUnseenIff(kids: seq<Json>, last: Json)
    ensures SeenTopics(kids + [last]) == kids <==> last.Value? || last.kids == []
  {
    assert (kids + [last])[..|kids|] == kids;
    if last.Node? && last.kids != [] {
      PrefixFits(last.kids, 0);
    }
  }

  /** So a list of one empty topic is walked, without error, as if it were empty. */
  lemma EmptyTopicUnseen()
    ensures var j := Node(true, [Node(false, [])]);
            && Flatten(j) == [Entry(Array, 1), Entry(Object, 0)] && Holds(Flatten(j), 0, j)
            && j.kids != [] && SeenTopics(j.kids) == []
  {
    var kids := [Node(false, [])];
    assert kids[..0] == [];
    assert FlattenAll([]) == [];
    assert FlattenAll(kids) == FlattenAll(kids[..0]) + Flatten(kids[0]) == [Entry(Object, 0)];
    assert Flatten(Node(true, kids)) == [Entry(Array, 1)] + [Entry(Object, 0)];
  }
}
