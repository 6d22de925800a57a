/** Keeping the best candidates: `removeWorstCandidate`, `appendBoundedCandidate` and the loop of
    `generateValueCandidates` (`analysis_core.cpp`), against sorting them all and taking the first. */
module BestCandidates {
  import opened Ranking
  import opened Sorting

  function KeysOf(candidates: seq<Candidate>): (keys: seq<Key>)
    ensures |keys| == |candidates|
    ensures forall i :: 0 <= i < |keys| ==> keys[i] == KeyOf(candidates[i])
  {
    seq(|candidates|, i requires 0 <= i < |candidates| => KeyOf(candidates[i]))
  }

  /** The reference: all the keys in order. */
  function SortedKeys(keys: seq<Key>): (r: seq<Key>)
    ensures multiset(r) == multiset(keys)
    ensures |r| == |keys|
  {
    SortedList(Before, keys)
  }

  // ---------------------------------------------------------------- order of keys

  lemma NotBeforeChain(a: Key, b: Key, c: Key)
    requires !Before(b, a) && !Before(c, b)
    ensures !Before(c, a)
  {
    hide Before;
    KeysAreTotal(a, b);
    KeysAreTotal(b, c);
    KeysAreTotal(a, c);
    if Before(c, a) {
      if Before(a, b) {
        KeysAreTransitive(c, a, b);
      }
    }
  }

  /** Keys can be sorted, and those that tie are equal. */
  lemma KeysAreOrdered(keys: multiset<Key>)
    ensures WeakOrder(Before) && NoTies(Before, keys)
  {
    hide Before;
    forall a, b ensures !(Before(a, b) && Before(b, a)) && (!Before(a, b) && !Before(b, a) ==> a == b) {
      KeysAreTotal(a, b);
    }
    forall a, b, c | !Before(b, a) && !Before(c, b) ensures !Before(c, a) {
      NotBeforeChain(a, b, c);
    }
  }

  // ---------------------------------------------------------------- what the stream keeps

  /** `kept` are the best `limit` of `all`: nothing left out comes before anything kept. */
  ghost predicate Best(kept: multiset<Key>, all: multiset<Key>, limit: nat) {
    && kept <= all
    && |kept| == (if |all| < limit then |all| else limit)
    && forall k, l :: k in kept && l in all - kept ==> !Before(l, k)
  }

  lemma BestOfNothing(limit: nat)
    ensures Best(multiset{}, multiset{}, limit)
  {
  }

  lemma BestWithRoom(kept: multiset<Key>, all: multiset<Key>, key: Key, limit: nat)
    requires Best(kept, all, limit) && |kept| < limit
    ensures Best(kept + multiset{key}, all + multiset{key}, limit)
  {
    hide Before;
    assert |kept| == |all|;
    assert kept == all by {
      assert all == kept + (all - kept);
    }
  }

  lemma BestWithoutWorst(kept: multiset<Key>, all: multiset<Key>, key: Key, worst: Key, limit: nat)
    requires Best(kept, all, limit) && |kept| == limit
    requires worst in kept + multiset{key} && forall k :: k in kept + multiset{key} ==> !Before(worst, k)
    ensures Best(kept + multiset{key} - multiset{worst}, all + multiset{key}, limit)
  {
    hide Before;
    var next, more := kept + multiset{key} - multiset{worst}, all + multiset{key};
    assert more - next == all - kept + multiset{worst};
    forall k, l | k in next && l in more - next ensures !Before(l, k) {
      assert k in kept + multiset{key};
      if l != worst {
        assert l in all - kept;
        if k !in kept {
          assert k == key && worst in kept;
          NotBeforeChain(k, worst, l);
        }
      }
    }
  }

  /** The best keys, in order, are the first of all keys in order. */
  lemma BestIsSortedPrefix(result: seq<Key>, all: seq<Key>, limit: nat)
    requires Sorted(Before, result) && Best(multiset(result), multiset(all), limit)
    ensures |result| == (if |all| < limit then |all| else limit)
    ensures result == SortedKeys(all)[..|result|]
  {
    hide *;
    var rest := Listed(multiset(all) - multiset(result));
    var left := SortedKeys(rest);
    KeysAreOrdered(multiset(result + left));
    KeysInOrder(rest);
    KeysInOrder(all);
    SplitInOrder(result, left, all, limit);
    SortedIsUnique(Before, result + left, SortedKeys(all));
    BestLength(result, all, limit);
  }

  lemma KeysInOrder(keys: seq<Key>)
    ensures Sorted(Before, SortedKeys(keys))
  {
    KeysAreOrdered(multiset(keys));
    hide Before;
    SortedListIsSorted(Before, keys);
  }

  lemma BestLength(result: seq<Key>, all: seq<Key>, limit: nat)
    requires Best(multiset(result), multiset(all), limit)
    ensures |result| == (if |all| < limit then |all| else limit)
  {
    assert |multiset(result)| == |result| && |multiset(all)| == |all|;
  }

  lemma SplitInOrder(result: seq<Key>, left: seq<Key>, all: seq<Key>, limit: nat)
    requires Sorted(Before, result) && Sorted(Before, left) && Best(multiset(result), multiset(all), limit)
    requires multiset(left) == multiset(all) - multiset(result)
    ensures Sorted(Before, result + left) && multiset(result + left) == multiset(all)
    ensures result == (result + left)[..|result|]
  {
    hide Before, SortedKeys;
    var joined := result + left;
    forall i, j | 0 <= i < j < |joined| ensures !Before(joined[j], joined[i]) {
      if i < |result| <= j {
        assert result[i] in multiset(result) && left[j - |result|] in multiset(left);
      }
    }
  }

  /** Some sequence with given elements. */
  ghost function Listed(keys: multiset<Key>): (r: seq<Key>)
    ensures multiset(r) == keys
    decreases |keys|
  {
    if keys == multiset{} then []
    else
      var key :| key in keys;
      Listed(keys - multiset{key}) + [key]
  }

  // ---------------------------------------------------------------- the algorithm

  /** `removeWorstCandidate`: the first of the worst ranked candidates goes. */
  method RemoveWorstCandidate(candidates: seq<Candidate>) returns (left: seq<Candidate>, worst: nat)
    requires candidates != []
    ensures worst < |candidates| && left == candidates[..worst] + candidates[worst + 1..]
    ensures forall k :: 0 <= k < |candidates| ==> !RankedBefore(candidates[worst], candidates[k])
    ensures forall k :: 0 <= k < worst ==> RankedBefore(candidates[k], candidates[worst])
  {
    hide RankedBefore;
    var w := 0;
    RankIsStrictWeakOrder(candidates[0], candidates[0], candidates[0]);
    for current := 1 to |candidates|
      invariant 0 <= w < current
      invariant forall k :: 0 <= k < current ==> !RankedBefore(candidates[w], candidates[k])
      invariant forall k :: 0 <= k < w ==> RankedBefore(candidates[k], candidates[w])
    {
      ghost var before := w;
      if RankedBefore(candidates[w], candidates[current]) {
        w := current;
        forall k | 0 <= k < current ensures RankedBefore(candidates[k], candidates[w]) {
          WorseThanWorst(candidates[k], candidates[before], candidates[w]);
        }
        forall k | 0 <= k <= current ensures !RankedBefore(candidates[w], candidates[k]) {
          RankIsStrictWeakOrder(candidates[k], candidates[w], candidates[w]);
          RankIsStrictWeakOrder(candidates[w], candidates[w], candidates[w]);
        }
      }
    }
    worst := w;
    left := candidates[..w] + candidates[w + 1..];
  }

  lemma WorseThanWorst(a: Candidate, b: Candidate, c: Candidate)
    requires !RankedBefore(b, a) && RankedBefore(b, c)
    ensures RankedBefore(a, c)
  {
    hide RankedBefore, Before, KeyOf;
    RankIsKeyOrder(b, a);
    RankIsKeyOrder(b, c);
    RankIsKeyOrder(a, c);
    KeysAreTotal(KeyOf(a), KeyOf(b));
    if Before(KeyOf(a), KeyOf(b)) {
      KeysAreTransitive(KeyOf(a), KeyOf(b), KeyOf(c));
    }
  }

  lemma KeysAppend(candidates: seq<Candidate>, c: Candidate)
    ensures multiset(KeysOf(candidates + [c])) == multiset(KeysOf(candidates)) + multiset{KeyOf(c)}
  {
    assert KeysOf(candidates + [c]) == KeysOf(candidates) + [KeyOf(c)];
  }

  lemma KeysWithout(candidates: seq<Candidate>, i: nat)
    requires i < |candidates|
    ensures multiset(KeysOf(candidates[..i] + candidates[i + 1..])) ==
      multiset(KeysOf(candidates)) - multiset{KeyOf(candidates[i])}
  {
    var keys := KeysOf(candidates);
    assert keys == keys[..i] + ([keys[i]] + keys[i + 1..]);
    assert KeysOf(candidates[..i] + candidates[i + 1..]) == keys[..i] + keys[i + 1..];
  }

  /** `appendBoundedCandidate`: of the candidates so far, the best stay. */
  method AppendBoundedCandidate(candidates: seq<Candidate>, candidate: Candidate, maxCandidates: nat,
      ghost all: seq<Key>)
    returns (kept: seq<Candidate>)
    requires maxCandidates > 0
    requires Best(multiset(KeysOf(candidates)), multiset(all), maxCandidates)
    ensures Best(multiset(KeysOf(kept)), multiset(all + [KeyOf(candidate)]), maxCandidates)
    ensures multiset(kept) <= multiset(candidates) + multiset{candidate}
  {
    hide RankedBefore, KeyOf, Best;
    BestSize(candidates, all, maxCandidates);
    kept := candidates + [candidate];
    KeysAppend(candidates, candidate);
    if |kept| > maxCandidates {
      ghost var longer := kept;
      var worst;
      kept, worst := RemoveWorstCandidate(kept);
      KeysWithout(longer, worst);
      CandidatesWithout(longer, worst);
      WorstKey(longer, worst);
      BestWithoutWorst(multiset(KeysOf(candidates)), multiset(all), KeyOf(candidate), KeyOf(longer[worst]),
        maxCandidates);
    } else {
      BestWithRoom(multiset(KeysOf(candidates)), multiset(all), KeyOf(candidate), maxCandidates);
    }
  }

  lemma BestSize(candidates: seq<Candidate>, all: seq<Key>, limit: nat)
    requires Best(multiset(KeysOf(candidates)), multiset(all), limit)
    ensures |candidates| <= limit && |multiset(KeysOf(candidates))| == |candidates|
  {
    assert |multiset(KeysOf(candidates))| == |KeysOf(candidates)|;
  }

  lemma WorstKey(candidates: seq<Candidate>, worst: nat)
    requires worst < |candidates|
    requires forall k :: 0 <= k < |candidates| ==> !RankedBefore(candidates[worst], candidates[k])
    ensures var key := KeyOf(candidates[worst]);
      key in multiset(KeysOf(candidates)) && forall k :: k in multiset(KeysOf(candidates)) ==> !Before(key, k)
  {
    hide RankedBefore, KeyOf, Before;
    assert KeysOf(candidates)[worst] in multiset(KeysOf(candidates));
    forall k | k in multiset(KeysOf(candidates)) ensures !Before(KeyOf(candidates[worst]), k) {
      var i :| 0 <= i < |candidates| && KeysOf(candidates)[i] == k;
      RankIsKeyOrder(candidates[worst], candidates[i]);
    }
  }

  /** `candidateRankedBefore` is an order that a sort may be given. */
  lemma RanksAreOrdered()
    ensures WeakOrder(RankedBefore)
  {
    hide RankedBefore;
    forall a, b | RankedBefore(a, b) ensures !RankedBefore(b, a) {
      RankIsStrictWeakOrder(a, b, b);
    }
    forall a, b, c | !RankedBefore(b, a) && !RankedBefore(c, b) ensures !RankedBefore(c, a) {
      NotRankedChain(a, b, c);
    }
  }

  lemma NotRankedChain(a: Candidate, b: Candidate, c: Candidate)
    requires !RankedBefore(b, a) && !RankedBefore(c, b)
    ensures !RankedBefore(c, a)
  {
    hide RankedBefore, KeyOf;
    RankIsKeyOrder(b, a);
    RankIsKeyOrder(c, b);
    RankIsKeyOrder(c, a);
    NotBeforeChain(KeyOf(a), KeyOf(b), KeyOf(c));
  }

  /** The sort the result goes through. What follows needs of it only what `std::sort` promises: the
      same candidates, none ranked before an earlier one. */
  method SortCandidates(candidates: seq<Candidate>) returns (sorted: seq<Candidate>)
    ensures multiset(sorted) == multiset(candidates)
    ensures forall i, j :: 0 <= i < j < |sorted| ==> !RankedBefore(sorted[j], sorted[i])
  {
    hide RankedBefore;
    RanksAreOrdered();
    sorted := Sort(RankedBefore, candidates);
  }

  lemma SortedCandidates(sorted: seq<Candidate>)
    requires forall i, j :: 0 <= i < j < |sorted| ==> !RankedBefore(sorted[j], sorted[i])
    ensures Sorted(Before, KeysOf(sorted))
  {
    hide RankedBefore, Before, KeyOf;
    forall i, j | 0 <= i < j < |sorted| ensures !Before(KeyOf(sorted[j]), KeyOf(sorted[i])) {
      RankIsKeyOrder(sorted[j], sorted[i]);
    }
  }

  lemma CandidatesWithout(candidates: seq<Candidate>, i: nat)
    requires i < |candidates|
    ensures multiset(candidates[..i] + candidates[i + 1..]) == multiset(candidates) - multiset{candidates[i]}
  {
    assert candidates == candidates[..i] + ([candidates[i]] + candidates[i + 1..]);
  }

  lemma {:induction false} SameKeys(a: seq<Candidate>, b: seq<Candidate>)
    requires multiset(a) == multiset(b)
    ensures multiset(KeysOf(a)) == multiset(KeysOf(b))
    decreases |a|
  {
    hide *;
    SameLength(a, b);
    if a != [] {
      var last := |a| - 1;
      WithoutLast(a);
      var i := Position(b, a[last]);
      CandidatesWithout(b, i);
      SameKeys(a[..last], b[..i] + b[i + 1..]);
      KeysWithout(b, i);
      HasKey(b, i);
    } else {
      assert a == b;
    }
  }

  lemma WithoutLast(candidates: seq<Candidate>)
    requires candidates != []
    ensures var shorter, last := candidates[..|candidates| - 1], candidates[|candidates| - 1];
      && last in multiset(candidates) && multiset(shorter) == multiset(candidates) - multiset{last}
      && multiset(KeysOf(candidates)) == multiset(KeysOf(shorter)) + multiset{KeyOf(last)}
  {
    hide KeyOf;
    assert candidates == candidates[..|candidates| - 1] + [candidates[|candidates| - 1]];
    KeysAppend(candidates[..|candidates| - 1], candidates[|candidates| - 1]);
  }

  lemma Position(candidates: seq<Candidate>, c: Candidate) returns (i: nat)
    requires c in multiset(candidates)
    ensures i < |candidates| && candidates[i] == c
  {
    i :| 0 <= i < |candidates| && candidates[i] == c;
  }

  lemma HasKey(candidates: seq<Candidate>, i: nat)
    requires i < |candidates|
    ensures KeyOf(candidates[i]) in multiset(KeysOf(candidates))
  {
    hide KeyOf;
    assert KeysOf(candidates)[i] in multiset(KeysOf(candidates));
  }

  /** The last loop of `generateValueCandidates`. */
  method DropExcess(candidates: seq<Candidate>, maxCandidates: nat) returns (kept: seq<Candidate>)
    ensures kept == if |candidates| > maxCandidates then candidates[..maxCandidates] else candidates
    ensures multiset(kept) <= multiset(candidates)
  {
    kept := candidates;
    while |kept| > maxCandidates
      invariant kept <= candidates
      invariant |kept| >= if |candidates| > maxCandidates then maxCandidates else |candidates|
    {
      kept := kept[..|kept| - 1];
    }
    assert candidates == kept + candidates[|kept|..];
  }

  // ---------------------------------------------------------------- the result

  /** What `addCandidate` is offered: a candidate within tolerance, or one that it drops. */
  datatype Offer = Dropped | Within(candidate: Candidate)

  function Admissible(offers: seq<Offer>): seq<Candidate> {
    if offers == [] then []
    else
      var rest := Admissible(offers[..|offers| - 1]);
      match offers[|offers| - 1]
      case Dropped => rest
      case Within(c) => rest + [c]
  }

  /** The end of `generateValueCandidates`: what the stream kept is, rank for rank, what sorting every
      admissible candidate and taking the first `maxCandidates` would give. */
  method GenerateCandidates(offers: seq<Offer>, maxCandidates: int) returns (success: bool, result: seq<Candidate>)
    ensures success <==> maxCandidates > 0
    ensures !success ==> result == []
    ensures success ==>
      |result| == if |Admissible(offers)| < maxCandidates then |Admissible(offers)| else maxCandidates
    ensures success ==> KeysOf(result) == SortedKeys(KeysOf(Admissible(offers)))[..|result|]
    ensures multiset(result) <= multiset(Admissible(offers))
  {
    hide Best, RankedBefore, KeyOf, SortedKeys;
    if maxCandidates <= 0 {
      return false, [];
    }
    success := true;
    var candidates: seq<Candidate> := [];
    ghost var all: seq<Key> := [];
    BestOfNothing(maxCandidates);
    assert multiset(KeysOf(candidates)) == multiset{} == multiset(all);
    for n := 0 to |offers|
      invariant all == KeysOf(Admissible(offers[..n]))
      invariant Best(multiset(KeysOf(candidates)), multiset(all), maxCandidates)
      invariant multiset(candidates) <= multiset(Admissible(offers[..n]))
    {
      assert offers[..n + 1][..n] == offers[..n];
      match offers[n] {
        case Dropped =>
        case Within(c) =>
          candidates := AppendBoundedCandidate(candidates, c, maxCandidates, all);
          assert KeysOf(Admissible(offers[..n]) + [c]) == all + [KeyOf(c)];
          all := all + [KeyOf(c)];
      }
    }
    assert offers[..|offers|] == offers;
    result := SortCandidates(candidates);
    SameKeys(result, candidates);
    SortedCandidates(result);
    BestSize(result, all, maxCandidates);
    BestIsSortedPrefix(KeysOf(result), all, maxCandidates);
    result := DropExcess(result, maxCandidates);
  }
}
