/** Publish topics: splitting their indexes by origin, and picking from either part in turn. */
module TopicSelect {
  import opened Options
  import opened RoundRobin

  /** The indexes of the topics of one origin, in order. */
  function Indexes(fromMD: seq<bool>, origin: bool): (r: seq<nat>)
    ensures |r| <= |fromMD|
  {
    if fromMD == [] then []
    else
      var n := |fromMD| - 1;
      Indexes(fromMD[..n], origin) + if fromMD[n] == origin then [n] else []
  }

  lemma {:induction false} IndexesMember(fromMD: seq<bool>, origin: bool, i: nat)
    ensures i in Indexes(fromMD, origin) <==> i < |fromMD| && fromMD[i] == origin
  {
    if fromMD != [] {
      var n := |fromMD| - 1;
      IndexesMember(fromMD[..n], origin, i);
      var r := Indexes(fromMD[..n], origin);
      if fromMD[n] == origin {
        assert i in r + [n] <==> i in r || i == n;
      } else {
        assert r + [] == r;
      }
    }
  }

  predicate Increasing(r: seq<nat>, bound: nat) {
    && (forall k :: 0 <= k < |r| ==> r[k] < bound)
    && (forall j, k :: 0 <= j < k < |r| ==> r[j] < r[k])
  }

  lemma {:induction false} IndexesOrdered(fromMD: seq<bool>, origin: bool)
    ensures Increasing(Indexes(fromMD, origin), |fromMD|)
  {
    if fromMD != [] {
      var n := |fromMD| - 1;
      IndexesOrdered(fromMD[..n], origin);
      var r := Indexes(fromMD[..n], origin);
      assert r + [] == r;
      assert Indexes(fromMD, origin) == r || Indexes(fromMD, origin) == r + [n];
    }
  }

  lemma {:induction false} IndexesTotal(fromMD: seq<bool>)
    ensures |Indexes(fromMD, true)| + |Indexes(fromMD, false)| == |fromMD|
  {
    if fromMD != [] {
      IndexesTotal(fromMD[..|fromMD| - 1]);
    }
  }

  /** The two parts are increasing, each holds exactly the topics of its origin, and together
      they have as many entries as there are topics: none is lost and none is in both. */
  lemma IndexesExact(fromMD: seq<bool>, origin: bool)
    ensures forall i: nat :: i in Indexes(fromMD, origin) <==> i < |fromMD| && fromMD[i] == origin
    ensures Increasing(Indexes(fromMD, origin), |fromMD|)
    ensures |Indexes(fromMD, true)| + |Indexes(fromMD, false)| == |fromMD|
  {
    hide Indexes;
    forall i: nat
      ensures i in Indexes(fromMD, origin) <==> i < |fromMD| && fromMD[i] == origin
    {
      IndexesMember(fromMD, origin, i);
    }
    IndexesOrdered(fromMD, origin);
    IndexesTotal(fromMD);
  }

  lemma {:induction false} IndexesGrow(fromMD: seq<bool>, origin: bool, k: nat)
    requires k <= |fromMD|
    ensures Indexes(fromMD[..k], origin) <= Indexes(fromMD, origin)
    ensures k < |fromMD| && fromMD[k] == origin ==> |Indexes(fromMD[..k], origin)| < |Indexes(fromMD, origin)|
    ensures k < |fromMD| ==>
              Indexes(fromMD[..k + 1], origin) == Indexes(fromMD[..k], origin) + if fromMD[k] == origin then [k] else []
  {
    var n := |fromMD|;
    if k == n {
      assert fromMD[..k] == fromMD;
    } else {
      assert fromMD[..k + 1][..k] == fromMD[..k];
      assert fromMD[..n - 1][..k] == fromMD[..k];
      IndexesGrow(fromMD[..n - 1], origin, k);
    }
  }

  lemma NoIndexes()
    ensures Indexes([], true) == [] && Indexes([], false) == []
  {
  }

  method CountTopics(fromMD: seq<bool>) returns (numMD: nat, numCL: nat)
    ensures numMD == |Indexes(fromMD, true)| && numCL == |Indexes(fromMD, false)|
  {
    assert fromMD[..0] == [];
    NoIndexes();
    hide Indexes;
    var i := 0;
    numMD, numCL := 0, 0;
    while i < |fromMD|
      invariant 0 <= i <= |fromMD|
      invariant numMD == |Indexes(fromMD[..i], true)| && numCL == |Indexes(fromMD[..i], false)|
    {
      IndexesGrow(fromMD, true, i);
      IndexesGrow(fromMD, false, i);
      if fromMD[i] {
        numMD := numMD + 1;
      } else {
        numCL := numCL + 1;
      }
      i := i + 1;
    }
    assert fromMD[..i] == fromMD;
  }

  method FillTopics(fromMD: seq<bool>, md: array<nat>, cl: array<nat>)
    requires md != cl
    requires md.Length == |Indexes(fromMD, true)| && cl.Length == |Indexes(fromMD, false)|
    modifies md, cl
    ensures md[..] == Indexes(fromMD, true) && cl[..] == Indexes(fromMD, false)
  {
    assert fromMD[..0] == [];
    NoIndexes();
    hide Indexes;
    var numMD, numCL, i := 0, 0, 0;
    while i < |fromMD|
      invariant 0 <= i <= |fromMD|
      invariant numMD == |Indexes(fromMD[..i], true)| <= md.Length && md[..numMD] == Indexes(fromMD[..i], true)
      invariant numCL == |Indexes(fromMD[..i], false)| <= cl.Length && cl[..numCL] == Indexes(fromMD[..i], false)
    {
      IndexesGrow(fromMD, true, i);
      IndexesGrow(fromMD, false, i);
      IndexesGrow(fromMD, true, i + 1);
      IndexesGrow(fromMD, false, i + 1);
      if fromMD[i] {
        md[numMD] := i;
        numMD := numMD + 1;
      } else {
        cl[numCL] := i;
        numCL := numCL + 1;
      }
      i := i + 1;
    }
    assert fromMD[..i] == fromMD;
  }

  /** First counts both origins, then fills two arrays of exactly those sizes. */
  method SplitTopics(fromMD: seq<bool>) returns (md: array<nat>, cl: array<nat>)
    ensures fresh(md) && fresh(cl)
    ensures md[..] == Indexes(fromMD, true) && cl[..] == Indexes(fromMD, false)
  {
    var numMD, numCL := CountTopics(fromMD);
    md, cl := new nat[numMD], new nat[numCL];
    FillTopics(fromMD, md, cl);
  }

  /** How often entry k was picked in the first m picks from n entries, when pick number p
      takes entry p mod n. */
  function Times(m: nat, n: nat, k: nat): nat
    requires n > 0
  {
    if m == 0 then 0 else Times(m - 1, n, k) + if (m - 1) % n == k then 1 else 0
  }

  lemma {:induction false} TimesIsShare(m: nat, n: nat, k: nat)
    requires n > 0 && k < n
    ensures Times(m, n, k) == Share(m, n, k)
  {
    if m == 0 {
      ShareNone(n, k);
    } else {
      TimesIsShare(m - 1, n, k);
      ShareNext(m - 1, n, k);
    }
  }

  /** After any number of picks, no two entries' pick counts differ by more than one. */
  lemma PickedEvenly(m: nat, n: nat, j: nat, k: nat)
    requires j < n && k < n
    ensures Times(m, n, j) <= Times(m, n, k) + 1
  {
    TimesIsShare(m, n, j);
    TimesIsShare(m, n, k);
    SharesEven(m, n, j, k);
  }

  class Cursor {
    const entries: array<nat>
    var next: nat
    ghost var picks: nat

    ghost predicate Valid()
      reads this
    {
      if entries.Length == 0 then next == 0 else next == picks % entries.Length
    }

    constructor (entries: array<nat>)
      ensures Valid() && this.entries == entries && picks == 0
    {
      this.entries, next, picks := entries, 0, 0;
      new;
      if entries.Length > 0 {
        DivModUnique(0, entries.Length, 0, 0);
      }
    }

    /** Round robin: pick number p takes entry p mod n. With no entries the source reads one all
        the same, and the model stops. */
    method Pick() returns (topic: Option<nat>)
      requires Valid()
      modifies this
      ensures Valid()
      ensures topic.None? <==> entries.Length == 0
      ensures topic.Some? ==> picks == old(picks) + 1 && topic.value == entries[old(picks) % entries.Length]
      ensures topic.None? ==> unchanged(this)
    {
      if next >= entries.Length {
        return None;
      }
      topic := Some(entries[next]);
      DivModNext(picks, entries.Length);
      next := next + 1;
      if next >= entries.Length {
        next := 0;
      }
      picks := picks + 1;
    }
  }

  // ----- which part is empty ---------------------------------------------------------------

  /** The topics of a client: those of its own list, then those of the messages in its own
      message directory. A message without a topic is refused while the list is still empty.
      `copies` says how many topics a message brings, none for a message without one. */
  method CollectTopics(own: nat, copies: seq<nat>, ownDirectory: bool) returns (ok: bool, fromMD: seq<bool>)
    ensures ok <==> !ownDirectory || own > 0 || copies == [] || copies[0] > 0
    ensures ok ==> fromMD == Collected(own, if ownDirectory then copies else [])
  {
    fromMD := seq(own, _ => false);
    if !ownDirectory {
      return true, fromMD;
    }
    var i := 0;
    while i < |copies|
      invariant 0 <= i <= |copies|
      invariant fromMD == Collected(own, copies[..i])
      invariant i > 0 ==> own > 0 || copies[0] > 0
    {
      CollectedSize(own, copies[..i]);
      assert copies[..i + 1][..i] == copies[..i];
      if copies[i] > 0 {
        fromMD := fromMD + seq(copies[i], _ => true);
      } else if fromMD == [] {
        return false, fromMD;
      }
      i := i + 1;
    }
    assert copies[..i] == copies;
    return true, fromMD;
  }

  function Collected(own: nat, copies: seq<nat>): seq<bool> {
    if copies == [] then seq(own, _ => false)
    else Collected(own, copies[..|copies| - 1]) + seq(copies[|copies| - 1], _ => true)
  }

  lemma {:induction false} CollectedSize(own: nat, copies: seq<nat>)
    ensures |Collected(own, copies)| >= own
    ensures copies != [] ==> |Collected(own, copies)| >= copies[0]
  {
    if copies != [] {
      var rest := copies[..|copies| - 1];
      CollectedSize(own, rest);
      if rest != [] {
        assert rest[0] == copies[0];
      }
    }
  }

  /** There is a topic from the client list exactly if the client has one of its own, and one
      from a message exactly if a message of its directory brings one. */
  lemma {:induction false} CollectedOrigins(own: nat, copies: seq<nat>)
    ensures false in Collected(own, copies) <==> own > 0
    ensures true in Collected(own, copies) <==> exists i :: 0 <= i < |copies| && copies[i] > 0
  {
    if copies == [] {
      if own > 0 {
        assert Collected(own, copies)[0] == false;
      }
    } else {
      var n := |copies| - 1;
      var rest, last := Collected(own, copies[..n]), seq(copies[n], _ => true);
      CollectedOrigins(own, copies[..n]);
      if copies[n] > 0 {
        assert last[0] == true && (rest + last)[|rest|] == true;
      }
      assert forall b :: b in rest + last <==> b in rest || b in last;
      assert forall i :: 0 <= i < n ==> copies[..n][i] == copies[i];
    }
  }

  /** The picks for every message of the directory in use find an entry. */
  ghost predicate PicksFind(fromMD: seq<bool>, messages: seq<nat>) {
    forall i :: 0 <= i < |messages| ==> Indexes(fromMD, messages[i] > 0) != []
  }

  lemma PartNonempty(fromMD: seq<bool>, origin: bool)
    ensures Indexes(fromMD, origin) != [] <==> origin in fromMD
  {
    IndexesExact(fromMD, origin);
    if i :| 0 <= i < |fromMD| && fromMD[i] == origin {
      assert i in Indexes(fromMD, origin);
    }
    if Indexes(fromMD, origin) != [] {
      assert Indexes(fromMD, origin)[0] in Indexes(fromMD, origin);
    }
  }

  /** A client picks only from parts that are not empty exactly when every message without a
      topic finds topics of the client's own, and messages with topics are in the client's own
      directory, not in the common one. */
  lemma PicksFindIff(own: nat, messages: seq<nat>, ownDirectory: bool)
    ensures PicksFind(Collected(own, if ownDirectory then messages else []), messages) <==>
            && (own > 0 || forall i :: 0 <= i < |messages| ==> messages[i] > 0)
            && (ownDirectory || forall i :: 0 <= i < |messages| ==> messages[i] == 0)
  {
    var copies := if ownDirectory then messages else [];
    CollectedOrigins(own, copies);
    PartNonempty(Collected(own, copies), true);
    PartNonempty(Collected(own, copies), false);
  }

  /** The check made while collecting lets a client through that fails it: no topics of its own,
      a message with a topic and then one without. */
  lemma EmptyPartReached()
    ensures var fromMD := Collected(0, [1, 0]); fromMD != [] && !PicksFind(fromMD, [1, 0])
  {
    PicksFindIff(0, [1, 0], true);
    CollectedSize(0, [1, 0]);
    assert [1, 0][1] == 0;
  }
}
