/**
 * The sub-protocol selector `getAcceptedSubProtocol`: keep the offered tokens
 * that are keys of the priority table, in client order, sort them by
 * descending priority with a stable sort, and answer the first one, or the
 * default token when nothing matched.
 */
module Selector {
  import opened Outcomes
  import Registry

  /** A matched candidate paired with its priority in the table. */
  datatype SubProtocol = SubProtocol(protocol: string, priority: int)

  /** The candidate at index `i` is non-null and a key of `table`. */
  predicate Offered(table: map<string, int>, cands: seq<Option<string>>, i: int) {
    0 <= i < |cands| && cands[i].Some? && cands[i].value in table
  }

  /** The table priority of an offered candidate. */
  function PriorityAt(table: map<string, int>, cands: seq<Option<string>>, i: int): int
    requires Offered(table, cands, i)
  {
    table[cands[i].value]
  }

  /**
   * Index `i` holds the candidate the selection must answer: it is offered,
   * no offered candidate has a higher priority, and every offered candidate
   * before it has a strictly lower one (ties go to the earliest).
   */
  ghost predicate EarliestHighest(table: map<string, int>, cands: seq<Option<string>>, i: int) {
    && Offered(table, cands, i)
    && (forall j :: Offered(table, cands, j) ==> PriorityAt(table, cands, j) <= PriorityAt(table, cands, i))
    && (forall j :: 0 <= j < i && Offered(table, cands, j) ==> PriorityAt(table, cands, j) < PriorityAt(table, cands, i))
  }

  /** At most one index is the earliest highest one. */
  lemma EarliestHighestIsUnique(table: map<string, int>, cands: seq<Option<string>>, i: int, j: int)
    requires EarliestHighest(table, cands, i) && EarliestHighest(table, cands, j)
    ensures i == j
  {
  }

  /** The selection answers exactly the earliest highest candidate, whenever one is known. */
  lemma {:induction false} AcceptsEarliestHighest(table: map<string, int>, cands: seq<Option<string>>, i: int, default: string)
    requires EarliestHighest(table, cands, i)
    ensures AcceptedSubProtocol(table, cands, default) == cands[i].value
  {
    var j :| EarliestHighest(table, cands, j) && AcceptedSubProtocol(table, cands, default) == cands[j].value;
    EarliestHighestIsUnique(table, cands, i, j);
  }

  /** The offered candidates, in client order, with their priorities. */
  function Matched(table: map<string, int>, cands: seq<Option<string>>): (ms: seq<SubProtocol>)
    ensures |ms| <= |cands|
    ensures forall k :: 0 <= k < |ms| ==> ms[k].protocol in table && ms[k].priority == table[ms[k].protocol]
    ensures ms == [] <==> forall i :: 0 <= i < |cands| ==> !Offered(table, cands, i)
    ensures forall i :: Offered(table, cands, i) ==> SubProtocol(cands[i].value, table[cands[i].value]) in ms
  {
    if cands == [] then []
    else
      var n := |cands| - 1;
      var init := Matched(table, cands[..n]);
      assert forall i :: 0 <= i < n ==> (Offered(table, cands[..n], i) <==> Offered(table, cands, i));
      if Offered(table, cands, n) then init + [SubProtocol(cands[n].value, table[cands[n].value])]
      else init
  }

  /**
   * Matching keeps client order: the matches of a concatenated offer are the
   * matches of its first part followed by those of its second part.
   */
  lemma {:induction false} MatchedAppend(table: map<string, int>, a: seq<Option<string>>, b: seq<Option<string>>)
    ensures Matched(table, a + b) == Matched(table, a) + Matched(table, b)
  {
    if b == [] {
      assert a + b == a;
    } else {
      var init, x := b[..|b| - 1], b[|b| - 1];
      MatchedAppend(table, a, init);
      assert (a + b)[..|a + b| - 1] == a + init;
      assert (a + b)[|a + b| - 1] == x;
      assert Offered(table, a + b, |a + b| - 1) <==> Offered(table, b, |b| - 1);
    }
  }

  /**
   * The index of the earliest offered candidate of highest priority, or
   * `None` when no candidate is offered.
   */
  function BestIndex(table: map<string, int>, cands: seq<Option<string>>): (r: Option<nat>)
    ensures r.None? <==> forall i :: 0 <= i < |cands| ==> !Offered(table, cands, i)
    ensures r.Some? ==> EarliestHighest(table, cands, r.value)
  {
    if cands == [] then None
    else
      var n := |cands| - 1;
      var b := BestIndex(table, cands[..n]);
      assert forall i :: 0 <= i < n ==> (Offered(table, cands[..n], i) <==> Offered(table, cands, i));
      if !Offered(table, cands, n) then b
      else if b.None? || PriorityAt(table, cands, b.value) < PriorityAt(table, cands, n) then Some(n)
      else b
  }

  /**
   * What the selector must answer: the earliest offered candidate of highest
   * priority, or `default` when no candidate is a key of `table`.
   */
  function AcceptedSubProtocol(table: map<string, int>, cands: seq<Option<string>>, default: string): (r: string)
    ensures (forall i :: 0 <= i < |cands| ==> !Offered(table, cands, i)) ==> r == default
    ensures (exists i :: Offered(table, cands, i)) ==>
              exists i :: EarliestHighest(table, cands, i) && r == cands[i].value
  {
    match BestIndex(table, cands)
    case None => default
    case Some(i) => cands[i].value
  }

  /** Priorities never increase along `s`. */
  predicate SortedByPriorityDesc(s: seq<SubProtocol>) {
    forall i, j :: 0 <= i < j < |s| ==> s[i].priority >= s[j].priority
  }

  /** Puts `x` after every entry of priority at least its own. */
  function InsertByPriority(x: SubProtocol, s: seq<SubProtocol>): seq<SubProtocol> {
    if s == [] then [x]
    else if s[0].priority < x.priority then [x] + s
    else [s[0]] + InsertByPriority(x, s[1..])
  }

  /**
   * `Collections.sort` with the comparator `s2.priority.compareTo(s1.priority)`:
   * a stable sort into descending priority, as an insertion sort.
   */
  function SortByPriority(s: seq<SubProtocol>): seq<SubProtocol> {
    if s == [] then []
    else InsertByPriority(s[|s| - 1], SortByPriority(s[..|s| - 1]))
  }

  /** The entries of `s` whose priority is `p`, in order. */
  function WithPriority(s: seq<SubProtocol>, p: int): seq<SubProtocol> {
    if s == [] then []
    else (if s[0].priority == p then [s[0]] else []) + WithPriority(s[1..], p)
  }

  lemma {:induction false} InsertByPriorityIsPermutation(x: SubProtocol, s: seq<SubProtocol>)
    ensures multiset(InsertByPriority(x, s)) == multiset(s) + multiset{x}
  {
    if s != [] && s[0].priority >= x.priority {
      InsertByPriorityIsPermutation(x, s[1..]);
      assert s == [s[0]] + s[1..];
    }
  }

  lemma {:induction false} InsertByPriorityBounded(x: SubProtocol, s: seq<SubProtocol>, bound: int)
    requires x.priority <= bound
    requires forall k :: 0 <= k < |s| ==> s[k].priority <= bound
    ensures forall k :: 0 <= k < |InsertByPriority(x, s)| ==> InsertByPriority(x, s)[k].priority <= bound
  {
    if s != [] && s[0].priority >= x.priority {
      InsertByPriorityBounded(x, s[1..], bound);
    }
  }

  lemma {:induction false} InsertByPriorityKeepsSorted(x: SubProtocol, s: seq<SubProtocol>)
    requires SortedByPriorityDesc(s)
    ensures SortedByPriorityDesc(InsertByPriority(x, s))
    ensures InsertByPriority(x, s)[0] == if s == [] || s[0].priority < x.priority then x else s[0]
  {
    if s != [] && s[0].priority >= x.priority {
      var rest := InsertByPriority(x, s[1..]);
      InsertByPriorityKeepsSorted(x, s[1..]);
      InsertByPriorityBounded(x, s[1..], s[0].priority);
      assert InsertByPriority(x, s) == [s[0]] + rest;
    }
  }

  /** The sort puts its input into descending priority. */
  lemma {:induction false} SortByPriorityIsSorted(s: seq<SubProtocol>)
    ensures SortedByPriorityDesc(SortByPriority(s))
  {
    if s != [] {
      var n := |s| - 1;
      SortByPriorityIsSorted(s[..n]);
      InsertByPriorityKeepsSorted(s[n], SortByPriority(s[..n]));
    }
  }

  /** The sort is a permutation of its input. */
  lemma {:induction false} SortByPriorityIsPermutation(s: seq<SubProtocol>)
    ensures multiset(SortByPriority(s)) == multiset(s)
  {
    if s != [] {
      var init, x := s[..|s| - 1], s[|s| - 1];
      var sortedInit := SortByPriority(init);
      assert SortByPriority(s) == InsertByPriority(x, sortedInit);
      SortByPriorityIsPermutation(init);
      InsertByPriorityIsPermutation(x, sortedInit);
      assert s == init + [x];
      assert multiset(s) == multiset(init) + multiset{x};
    }
  }

  lemma {:induction false} WithPriorityAppend(s: seq<SubProtocol>, t: seq<SubProtocol>, p: int)
    ensures WithPriority(s + t, p) == WithPriority(s, p) + WithPriority(t, p)
  {
    if s == [] {
      assert s + t == t;
    } else {
      var head := if s[0].priority == p then [s[0]] else [];
      assert (s + t)[0] == s[0];
      assert (s + t)[1..] == s[1..] + t;
      assert WithPriority(s + t, p) == head + WithPriority(s[1..] + t, p);
      WithPriorityAppend(s[1..], t, p);
      assert head + (WithPriority(s[1..], p) + WithPriority(t, p)) == (head + WithPriority(s[1..], p)) + WithPriority(t, p);
    }
  }

  lemma {:induction false} WithPriorityAllBelow(s: seq<SubProtocol>, p: int)
    requires forall k :: 0 <= k < |s| ==> s[k].priority < p
    ensures WithPriority(s, p) == []
  {
    if s != [] {
      WithPriorityAllBelow(s[1..], p);
    }
  }

  lemma {:induction false} InsertByPriorityIsStable(x: SubProtocol, s: seq<SubProtocol>, p: int)
    requires SortedByPriorityDesc(s)
    ensures WithPriority(InsertByPriority(x, s), p) == WithPriority(s, p) + (if x.priority == p then [x] else [])
  {
    if s == [] {
    } else if s[0].priority < x.priority {
      if x.priority == p {
        WithPriorityAllBelow(s, p);
      }
      WithPriorityAppend([x], s, p);
    } else {
      InsertByPriorityIsStable(x, s[1..], p);
      WithPriorityAppend([s[0]], InsertByPriority(x, s[1..]), p);
      WithPriorityAppend([s[0]], s[1..], p);
      assert s == [s[0]] + s[1..];
    }
  }

  /**
   * The sort is stable: for every priority, the entries of that priority keep
   * their relative order.
   */
  lemma {:induction false} SortByPriorityIsStable(s: seq<SubProtocol>, p: int)
    ensures WithPriority(SortByPriority(s), p) == WithPriority(s, p)
  {
    if s != [] {
      var n := |s| - 1;
      SortByPriorityIsStable(s[..n], p);
      SortByPriorityIsSorted(s[..n]);
      InsertByPriorityIsStable(s[n], SortByPriority(s[..n]), p);
      WithPriorityAppend(s[..n], [s[n]], p);
      assert s == s[..n] + [s[n]];
    }
  }

  /** Sorting the matched candidates puts the earliest highest one first. */
  lemma {:induction false} SortedHeadIsBest(table: map<string, int>, cands: seq<Option<string>>)
    ensures SortByPriority(Matched(table, cands)) == [] <==> BestIndex(table, cands).None?
    ensures BestIndex(table, cands).Some? ==>
              var i := BestIndex(table, cands).value;
              SortByPriority(Matched(table, cands))[0] == SubProtocol(cands[i].value, PriorityAt(table, cands, i))
  {
    if cands != [] {
      var n := |cands| - 1;
      var init := Matched(table, cands[..n]);
      SortedHeadIsBest(table, cands[..n]);
      SortByPriorityIsSorted(init);
      if Offered(table, cands, n) {
        var x := SubProtocol(cands[n].value, table[cands[n].value]);
        assert (init + [x])[..|init|] == init;
        InsertByPriorityKeepsSorted(x, SortByPriority(init));
      }
    }
  }

  /**
   * `getAcceptedSubProtocol`, with `null` candidates skipped: collects the
   * matches in a loop, sorts them, and answers the first or the default.
   */
  method GetAcceptedSubProtocol(protocols: map<string, int>, subProtocols: seq<Option<string>>, defaultProtocol: string)
    returns (accepted: string)
    ensures accepted == AcceptedSubProtocol(protocols, subProtocols, defaultProtocol)
  {
    var matchedProtocols: seq<SubProtocol> := [];
    if |subProtocols| > 0 {
      for i := 0 to |subProtocols|
        invariant matchedProtocols == Matched(protocols, subProtocols[..i])
      {
        var subProtocol := subProtocols[i];
        if subProtocol.Some? && subProtocol.value in protocols {
          matchedProtocols := matchedProtocols + [SubProtocol(subProtocol.value, protocols[subProtocol.value])];
        }
        assert subProtocols[..i + 1][..i] == subProtocols[..i];
      }
      assert subProtocols[..|subProtocols|] == subProtocols;
      if |matchedProtocols| > 0 {
        matchedProtocols := SortByPriority(matchedProtocols);
        SortedHeadIsBest(protocols, subProtocols);
        accepted := matchedProtocols[0].protocol;
        return;
      }
    }
    accepted := defaultProtocol;
  }

  /**
   * The matching loop as the source writes it: the tables are
   * `ConcurrentHashMap`s, whose `get(null)` throws before the
   * `subProtocol != null` test is reached.
   */
  function MatchedAsWritten(table: map<string, int>, cands: seq<Option<string>>): (r: Outcome<seq<SubProtocol>>)
    ensures r.Throws? <==> ContainsNull(cands)
    ensures r.Returns? ==> r.value == Matched(table, cands)
  {
    if cands == [] then Returns([])
    else
      var n := |cands| - 1;
      assert forall i :: 0 <= i < n ==> cands[..n][i] == cands[i];
      match MatchedAsWritten(table, cands[..n])
      case Throws(e) => Throws(e)
      case Returns(init) =>
        if cands[n].None? then Throws(NullPointerException)
        else if cands[n].value in table then Returns(init + [SubProtocol(cands[n].value, table[cands[n].value])])
        else Returns(init)
  }

  /** `getAcceptedSubProtocol` as written: a `null` candidate throws. */
  function AcceptedSubProtocolAsWritten(table: map<string, int>, cands: seq<Option<string>>, default: string)
    : (r: Outcome<string>)
    ensures r.Throws? <==> ContainsNull(cands)
    ensures r.Returns? ==> r.value == AcceptedSubProtocol(table, cands, default)
  {
    if |cands| == 0 then Returns(default)
    else
      match MatchedAsWritten(table, cands)
      case Throws(e) => Throws(e)
      case Returns(ms) =>
        SortedHeadIsBest(table, cands);
        if |ms| > 0 then Returns(SortByPriority(ms)[0].protocol) else Returns(default)
  }

  /**
   * A `null` candidate ahead of a registered one: the source throws where the
   * null-skipping selection answers the registered token.
   */
  lemma NullCandidateThrowsAsWritten()
    ensures AcceptedSubProtocolAsWritten(Registry.StompProtocols, [None, Some("v12.stomp")], "stomp")
              == Throws(NullPointerException)
    ensures AcceptedSubProtocol(Registry.StompProtocols, [None, Some("v12.stomp")], "stomp") == "v12.stomp"
  {
    var cands: seq<Option<string>> := [None, Some("v12.stomp")];
    assert cands[0].None?;
    assert EarliestHighest(Registry.StompProtocols, cands, 1);
    AcceptsEarliestHighest(Registry.StompProtocols, cands, 1, "stomp");
  }
}
