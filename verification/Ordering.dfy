/** ORDER BY and LIMIT over SQL row collections.

    A SQL result under ORDER BY is any listing of the rows that the order permits, so the
    meaning of `ORDER BY ... LIMIT k` is a relation between a multiset of rows and a result. */
module Ordering {
  import opened Wrappers

  function ToSet<T>(s: seq<T>): set<T> {
    set x | x in s
  }

  ghost predicate Distinct<T>(s: seq<T>) {
    forall i, j | 0 <= i < j < |s| :: s[i] != s[j]
  }

  ghost predicate WeakOrder<T(!new)>(less: (T, T) -> bool) {
    && (forall x, y :: less(x, y) ==> !less(y, x))
    && (forall x, y, z :: less(x, z) ==> less(x, y) || less(y, z))
  }

  ghost predicate TotalOn<T>(less: (T, T) -> bool, rows: set<T>) {
    forall x, y | x in rows && y in rows && x != y :: less(x, y) || less(y, x)
  }

  /** A listing the order permits: no row stands before a row that must precede it. */
  ghost predicate Listed<T>(s: seq<T>, less: (T, T) -> bool) {
    forall i, j | 0 <= i < j < |s| :: !less(s[j], s[i])
  }

  ghost predicate Ascending<T>(s: seq<T>, less: (T, T) -> bool) {
    forall i, j | 0 <= i < j < |s| :: less(s[i], s[j])
  }

  /** The cut of LIMIT; a NULL limit keeps every row. */
  function Limit<T>(s: seq<T>, limit: Option<nat>): seq<T> {
    if limit.Some? && limit.value < |s| then s[..limit.value] else s
  }

  ghost predicate Listing<T>(rows: multiset<T>, less: (T, T) -> bool, s: seq<T>) {
    multiset(s) == rows && Listed(s, less)
  }

  /** `result` is an admissible answer of SELECT ... FROM rows ORDER BY less LIMIT limit. */
  ghost predicate OrderByLimit<T(!new)>(rows: multiset<T>, less: (T, T) -> bool, limit: Option<nat>, result: seq<T>) {
    exists s: seq<T> :: Listing(rows, less, s) && result == Limit(s, limit)
  }

  // ---------- every row collection has a listing ----------

  /** Inserting a row behind the rows that precede it keeps a listing. */
  lemma InsertListed<T(!new)>(t: seq<T>, less: (T, T) -> bool, x: T, i: nat)
    requires WeakOrder(less) && Listed(t, less) && i <= |t|
    requires forall j | 0 <= j < i :: less(t[j], x)
    requires i < |t| ==> !less(t[i], x)
    ensures Listed(t[..i] + [x] + t[i..], less)
  {
    forall k | i <= k < |t| ensures !less(t[k], x) {
      assert k > i ==> !less(t[k], t[i]);
    }
  }

  lemma {:induction false} ListingExists<T(!new)>(rows: multiset<T>, less: (T, T) -> bool) returns (s: seq<T>)
    requires WeakOrder(less)
    ensures Listing(rows, less, s)
    decreases |rows|
  {
    if rows == multiset{} {
      s := [];
    } else {
      var x :| x in rows;
      var t := ListingExists(rows - multiset{x}, less);
      var i := 0;
      while i < |t| && less(t[i], x)
        invariant 0 <= i <= |t|
        invariant forall j | 0 <= j < i :: less(t[j], x)
      {
        i := i + 1;
      }
      InsertListed(t, less, x, i);
      assert t == t[..i] + t[i..];
      s := t[..i] + [x] + t[i..];
    }
  }

  lemma AnswerExists<T(!new)>(rows: multiset<T>, less: (T, T) -> bool, limit: Option<nat>) returns (result: seq<T>)
    requires WeakOrder(less)
    ensures OrderByLimit(rows, less, limit, result)
  {
    var s := ListingExists(rows, less);
    result := Limit(s, limit);
  }

  // ---------- what ORDER BY on a key without ties answers ----------

  ghost function Below<T>(rows: set<T>, less: (T, T) -> bool, x: T): set<T> {
    set y | y in rows && less(y, x)
  }

  /** The rows that fewer than `limit` other rows precede. */
  ghost function Top<T>(rows: set<T>, less: (T, T) -> bool, limit: Option<nat>): set<T> {
    set x | x in rows && (limit.Some? ==> |Below(rows, less, x)| < limit.value)
  }

  lemma {:induction false} DistinctSize<T>(s: seq<T>)
    requires Distinct(s)
    ensures |ToSet(s)| == |s|
    ensures multiset(s) == multiset(ToSet(s))
  {
    if s != [] {
      var last := s[|s| - 1];
      var init := s[..|s| - 1];
      DistinctSize(init);
      assert s == init + [last];
      assert ToSet(s) == ToSet(init) + {last};
      assert last !in init;
    }
  }

  lemma {:induction false} SubsetSize<T>(a: set<T>, b: set<T>)
    requires a <= b
    ensures |a| <= |b|
  {
    if a != {} {
      var x :| x in a;
      SubsetSize(a - {x}, b - {x});
    }
  }

  lemma AscendingDistinct<T(!new)>(s: seq<T>, less: (T, T) -> bool)
    requires WeakOrder(less) && Ascending(s, less)
    ensures Distinct(s)
  {
  }

  lemma NoMembers<T>(s: seq<T>)
    ensures ToSet(s) == {} <==> s == []
  {
    assert s != [] ==> s[0] in ToSet(s);
  }

  lemma LastIsGreatest<T(!new)>(s: seq<T>, less: (T, T) -> bool)
    requires WeakOrder(less) && Ascending(s, less) && s != []
    ensures s[|s| - 1] in ToSet(s)
    ensures forall x | x in ToSet(s) && x != s[|s| - 1] :: less(x, s[|s| - 1])
    ensures ToSet(s[..|s| - 1]) == ToSet(s) - {s[|s| - 1]}
  {
    var n := |s| - 1;
    assert s == s[..n] + [s[n]];
    forall x | x in s[..n] ensures x != s[n] && less(x, s[n]) {
      var i :| 0 <= i < n && s[i] == x;
    }
  }

  /** Two ascending sequences of the same rows are the same sequence. */
  lemma {:induction false} AscendingUnique<T(!new)>(a: seq<T>, b: seq<T>, less: (T, T) -> bool)
    requires WeakOrder(less) && Ascending(a, less) && Ascending(b, less)
    requires ToSet(a) == ToSet(b)
    ensures a == b
  {
    if a == [] || b == [] {
      NoMembers(a);
      NoMembers(b);
    } else {
      LastIsGreatest(a, less);
      LastIsGreatest(b, less);
      var x, y := a[|a| - 1], b[|b| - 1];
      assert x in ToSet(b) && y in ToSet(a);
      assert x == y;
      AscendingUnique(a[..|a| - 1], b[..|b| - 1], less);
      assert a == a[..|a| - 1] + [x] && b == b[..|b| - 1] + [y];
    }
  }

  lemma TwiceInMultiset<T>(s: seq<T>, i: nat, j: nat)
    requires i < j < |s| && s[i] == s[j]
    ensures multiset(s)[s[i]] >= 2
  {
    assert s == s[..i] + [s[i]] + s[i + 1..j] + [s[j]] + s[j + 1..];
  }

  lemma MultisetOfSet<T>(s: seq<T>, rows: set<T>)
    requires multiset(s) == multiset(rows)
    ensures Distinct(s)
    ensures ToSet(s) == rows
  {
    forall i, j | 0 <= i < j < |s| ensures s[i] != s[j] {
      if s[i] == s[j] {
        TwiceInMultiset(s, i, j);
      }
    }
    forall x ensures x in ToSet(s) <==> x in rows {
      assert x in ToSet(s) <==> x in multiset(s);
    }
  }

  /** In a listing of rows without ties, exactly i rows precede position i. */
  lemma ListingRank<T(!new)>(rows: set<T>, less: (T, T) -> bool, s: seq<T>, i: nat)
    requires WeakOrder(less) && TotalOn(less, rows) && Listing(multiset(rows), less, s) && i < |s|
    ensures Ascending(s, less) && ToSet(s) == rows
    ensures Below(rows, less, s[i]) == ToSet(s[..i]) && |Below(rows, less, s[i])| == i
  {
    MultisetOfSet(s, rows);
    forall j, k | 0 <= j < k < |s| ensures less(s[j], s[k]) {
      assert s[j] in ToSet(s) && s[k] in ToSet(s);
    }
    forall x ensures x in Below(rows, less, s[i]) <==> x in ToSet(s[..i]) {
      if x in Below(rows, less, s[i]) {
        assert x in ToSet(s);
        var j :| 0 <= j < |s| && s[j] == x;
        assert j < i;
        assert s[..i][j] == x;
      }
    }
    DistinctSize(s[..i]);
  }

  /** Without ties the answer is determined: the Top rows in ascending order. */
  lemma AnswerIsTop<T(!new)>(rows: set<T>, less: (T, T) -> bool, limit: Option<nat>, result: seq<T>)
    requires WeakOrder(less) && TotalOn(less, rows)
    ensures OrderByLimit(multiset(rows), less, limit, result)
       <==> Ascending(result, less) && ToSet(result) == Top(rows, less, limit)
  {
    forall s | Listing(multiset(rows), less, s)
      ensures Ascending(Limit(s, limit), less) && ToSet(Limit(s, limit)) == Top(rows, less, limit)
    {
      CutOfListing(rows, less, limit, s);
    }
    if Ascending(result, less) && ToSet(result) == Top(rows, less, limit) {
      var s := ListingExists(multiset(rows), less);
      AscendingUnique(result, Limit(s, limit), less);
    }
  }

  lemma CutOfListing<T(!new)>(rows: set<T>, less: (T, T) -> bool, limit: Option<nat>, s: seq<T>)
    requires WeakOrder(less) && TotalOn(less, rows) && Listing(multiset(rows), less, s)
    ensures Ascending(Limit(s, limit), less) && ToSet(Limit(s, limit)) == Top(rows, less, limit)
  {
    var cut := Limit(s, limit);
    MultisetOfSet(s, rows);
    forall i: nat | i < |s|
      ensures Ascending(s, less) && |Below(rows, less, s[i])| == i
    {
      ListingRank(rows, less, s, i);
    }
    forall x ensures x in ToSet(cut) <==> x in Top(rows, less, limit) {
      if x in ToSet(cut) {
        var i :| 0 <= i < |cut| && cut[i] == x;
        assert s[i] == x && x in ToSet(s);
      }
      if x in Top(rows, less, limit) {
        assert x in ToSet(s);
        var i :| 0 <= i < |s| && s[i] == x;
        assert cut[i] == x;
      }
    }
  }

  // ---------- merging limited branches ----------

  function Flatten<T>(parts: seq<seq<T>>): seq<T> {
    if parts == [] then [] else Flatten(parts[..|parts| - 1]) + parts[|parts| - 1]
  }

  function Union<T>(parts: seq<set<T>>): set<T> {
    if parts == [] then {} else Union(parts[..|parts| - 1]) + parts[|parts| - 1]
  }

  ghost predicate Disjoint<T>(parts: seq<set<T>>) {
    forall i, j | 0 <= i < j < |parts| :: parts[i] !! parts[j]
  }

  lemma {:induction false} UnionMember<T>(parts: seq<set<T>>, x: T)
    ensures x in Union(parts) <==> exists i :: 0 <= i < |parts| && x in parts[i]
  {
    if parts != [] {
      var init := parts[..|parts| - 1];
      UnionMember(init, x);
      assert forall i | 0 <= i < |init| :: init[i] == parts[i];
    }
  }

  lemma MinimalElement<T(!new)>(rows: set<T>, less: (T, T) -> bool) returns (least: T)
    requires WeakOrder(less) && rows != {}
    ensures least in rows && forall x | x in rows :: !less(x, least)
  {
    var s := ListingExists(multiset(rows), less);
    MultisetOfSet(s, rows);
    assert s != [];
    least := s[0];
    assert least in ToSet(s);
    forall x | x in rows ensures !less(x, least) {
      assert x in ToSet(s);
    }
  }

  /** Cutting every branch to the limit first loses no row of the overall cut. */
  lemma TopOfTops<T(!new)>(parts: seq<set<T>>, tops: seq<set<T>>, less: (T, T) -> bool, limit: Option<nat>)
    requires WeakOrder(less)
    requires |tops| == |parts| && forall i | 0 <= i < |parts| :: tops[i] == Top(parts[i], less, limit)
    ensures Top(Union(tops), less, limit) == Top(Union(parts), less, limit)
  {
    var pool, all := Union(tops), Union(parts);
    forall x | x in pool ensures x in all {
      UnionMember(tops, x);
      UnionMember(parts, x);
    }
    forall x ensures x in Top(pool, less, limit) <==> x in Top(all, less, limit) {
      if x in Top(all, less, limit) {
        UnionMember(parts, x);
        UnionMember(tops, x);
        var i :| 0 <= i < |parts| && x in parts[i];
        forall y | y in parts[i] ensures y in all { UnionMember(parts, y); }
        SubsetSize(Below(parts[i], less, x), Below(all, less, x));
        SubsetSize(Below(pool, less, x), Below(all, less, x));
        assert x in tops[i];
      }
      if x in Top(pool, less, limit) && limit.Some? {
        var lost := Below(all, less, x) - pool;
        if lost == {} {
          forall y | y in Below(all, less, x) ensures y in Below(pool, less, x) {
            assert y !in lost;
          }
          SubsetSize(Below(all, less, x), Below(pool, less, x));
        } else {
          var u := MinimalElement(lost, less);
          UnionMember(parts, u);
          UnionMember(tops, u);
          var i :| 0 <= i < |parts| && u in parts[i];
          forall y | y in Below(parts[i], less, u) ensures y in Below(pool, less, x) {
            UnionMember(parts, y);
            assert y in Below(all, less, x);
            assert y !in lost;
          }
          SubsetSize(Below(parts[i], less, u), Below(pool, less, x));
          assert tops[i] == Top(parts[i], less, limit);
        }
      }
    }
  }

  lemma UnionDisjoint<T>(parts: seq<set<T>>, n: nat)
    requires n < |parts| && Disjoint(parts)
    ensures Union(parts[..n]) !! parts[n]
  {
    forall x | x in Union(parts[..n]) ensures x !in parts[n] {
      UnionMember(parts[..n], x);
    }
  }

  /** Concatenating repetition-free results with disjoint rows repeats no row. */
  lemma {:induction false} FlattenDisjoint<T>(results: seq<seq<T>>, tops: seq<set<T>>)
    requires |results| == |tops| && Disjoint(tops)
    requires forall i | 0 <= i < |tops| :: multiset(results[i]) == multiset(tops[i])
    ensures multiset(Flatten(results)) == multiset(Union(tops))
  {
    if results != [] {
      var n := |results| - 1;
      FlattenDisjoint(results[..n], tops[..n]);
      UnionDisjoint(tops, n);
      assert multiset(Union(tops[..n]) + tops[n]) == multiset(Union(tops[..n])) + multiset(tops[n]);
    }
  }

  /** UNION ALL of branches, each ordered and cut, then ordered and cut again, answers exactly
      what ordering and cutting all their rows at once answers. */
  lemma UnionOfLimits<T(!new)>(parts: seq<set<T>>, results: seq<seq<T>>, less: (T, T) -> bool, limit: Option<nat>, result: seq<T>)
    requires WeakOrder(less) && TotalOn(less, Union(parts)) && Disjoint(parts) && |results| == |parts|
    requires forall i | 0 <= i < |parts| :: OrderByLimit(multiset(parts[i]), less, limit, results[i])
    ensures OrderByLimit(multiset(Flatten(results)), less, limit, result)
       <==> OrderByLimit(multiset(Union(parts)), less, limit, result)
  {
    var tops := seq(|results|, i requires 0 <= i < |results| => ToSet(results[i]));
    forall i | 0 <= i < |parts| ensures Ascending(results[i], less) && ToSet(results[i]) == Top(parts[i], less, limit) {
      forall x | x in parts[i] ensures x in Union(parts) { UnionMember(parts, x); }
      AnswerIsTop(parts[i], less, limit, results[i]);
    }
    forall i | 0 <= i < |parts| ensures multiset(results[i]) == multiset(tops[i]) && tops[i] <= parts[i] {
      AscendingDistinct(results[i], less);
      DistinctSize(results[i]);
    }
    FlattenDisjoint(results, tops);
    TopOfTops(parts, tops, less, limit);
    forall x | x in Union(tops) ensures x in Union(parts) {
      UnionMember(tops, x);
      UnionMember(parts, x);
    }
    AnswerIsTop(Union(tops), less, limit, result);
    AnswerIsTop(Union(parts), less, limit, result);
  }

  lemma {:induction false} BranchAnswersExist<T(!new)>(parts: seq<set<T>>, less: (T, T) -> bool, limit: Option<nat>) returns (results: seq<seq<T>>)
    requires WeakOrder(less)
    ensures |results| == |parts|
    ensures forall i | 0 <= i < |parts| :: OrderByLimit(multiset(parts[i]), less, limit, results[i])
  {
    if parts == [] {
      results := [];
    } else {
      var n := |parts| - 1;
      var init := BranchAnswersExist(parts[..n], less, limit);
      var last := AnswerExists(multiset(parts[n]), less, limit);
      results := init + [last];
      forall i | 0 <= i < |parts| ensures OrderByLimit(multiset(parts[i]), less, limit, results[i]) {
        assert i < n ==> parts[..n][i] == parts[i];
      }
    }
  }

  // ---------- orders on several keys ----------

  /** ORDER BY p, q */
  function Then<T>(p: (T, T) -> bool, q: (T, T) -> bool): (T, T) -> bool {
    (a: T, b: T) => p(a, b) || (!p(b, a) && q(a, b))
  }

  lemma ThenIsOrder<T(!new)>(p: (T, T) -> bool, q: (T, T) -> bool)
    requires WeakOrder(p) && WeakOrder(q)
    ensures WeakOrder(Then(p, q))
  {
    var order := Then(p, q);
    forall x, y, z | order(x, z) ensures order(x, y) || order(y, z) {
      if !p(x, y) && !p(y, z) {
        assert !p(x, z) && q(x, z);
        assert p(y, x) ==> p(z, x) || p(y, z);
      }
    }
    forall x, y | order(x, y) ensures !order(y, x) { }
  }

  // ---------- answers when the order leaves ties ----------

  /** How many rows of `s` precede `pivot`. */
  function CountBefore<T>(s: seq<T>, less: (T, T) -> bool, pivot: T): (n: nat)
    ensures n <= |s|
  {
    if s == [] then 0
    else CountBefore(s[..|s| - 1], less, pivot) + (if less(s[|s| - 1], pivot) then 1 else 0)
  }

  lemma {:induction false} CountBeforeConcat<T>(a: seq<T>, b: seq<T>, less: (T, T) -> bool, pivot: T)
    ensures CountBefore(a + b, less, pivot) == CountBefore(a, less, pivot) + CountBefore(b, less, pivot)
  {
    if b == [] {
      assert a + b == a;
    } else {
      CountBeforeConcat(a, b[..|b| - 1], less, pivot);
      assert (a + b)[..|a + b| - 1] == a + b[..|b| - 1];
    }
  }

  lemma MultisetRemove<T>(s: seq<T>, i: nat)
    requires i < |s|
    ensures s == s[..i] + [s[i]] + s[i + 1..]
    ensures multiset(s[..i] + s[i + 1..]) == multiset(s) - multiset{s[i]}
  {
    assert s == s[..i] + [s[i]] + s[i + 1..];
  }

  lemma CountBeforeRemove<T>(s: seq<T>, i: nat, less: (T, T) -> bool, pivot: T)
    requires i < |s|
    ensures CountBefore(s, less, pivot)
         == CountBefore(s[..i] + s[i + 1..], less, pivot) + (if less(s[i], pivot) then 1 else 0)
  {
    MultisetRemove(s, i);
    CountBeforeConcat(s[..i] + [s[i]], s[i + 1..], less, pivot);
    CountBeforeConcat(s[..i], s[i + 1..], less, pivot);
    assert (s[..i] + [s[i]])[..i] == s[..i];
  }

  lemma RemoveMatching<T>(a: seq<T>, b: seq<T>) returns (i: nat)
    requires multiset(a) == multiset(b) && a != []
    ensures i < |b| && b[i] == a[|a| - 1]
    ensures multiset(b[..i] + b[i + 1..]) == multiset(a[..|a| - 1])
  {
    var n := |a| - 1;
    assert a[n] in multiset(a);
    i :| 0 <= i < |b| && b[i] == a[n];
    MultisetRemove(a, n);
    MultisetRemove(b, i);
    assert a[..n] + a[n + 1..] == a[..n];
  }

  lemma {:induction false} CountBeforePermutation<T>(a: seq<T>, b: seq<T>, less: (T, T) -> bool, pivot: T)
    requires multiset(a) == multiset(b)
    ensures CountBefore(a, less, pivot) == CountBefore(b, less, pivot)
  {
    assert |a| == |multiset(a)| == |multiset(b)| == |b|;
    if a != [] {
      var i := RemoveMatching(a, b);
      CountBeforePermutation(a[..|a| - 1], b[..i] + b[i + 1..], less, pivot);
      CountBeforeRemove(b, i, less, pivot);
    }
  }

  lemma {:induction false} CountBeforeBounds<T>(s: seq<T>, less: (T, T) -> bool, pivot: T)
    ensures (forall x | x in s :: less(x, pivot)) ==> CountBefore(s, less, pivot) == |s|
    ensures (forall x | x in s :: !less(x, pivot)) ==> CountBefore(s, less, pivot) == 0
  {
    if s != [] {
      CountBeforeBounds(s[..|s| - 1], less, pivot);
      assert s[|s| - 1] in s;
    }
  }

  lemma FrontBefore<T>(p: seq<T>, q: seq<T>, less: (T, T) -> bool, pivot: T)
    ensures (forall x | x in p :: less(x, pivot)) ==> CountBefore(p + q, less, pivot) >= |p|
    ensures (forall x | x in q :: !less(x, pivot)) ==> CountBefore(p + q, less, pivot) <= |p|
  {
    CountBeforeBounds(p, less, pivot);
    CountBeforeBounds(q, less, pivot);
    CountBeforeConcat(p, q, less, pivot);
  }

  lemma AllBefore<T(!new)>(s: seq<T>, less: (T, T) -> bool, i: nat, pivot: T)
    requires WeakOrder(less) && Listed(s, less) && i < |s| && less(s[i], pivot)
    ensures forall x | x in s[..i + 1] :: less(x, pivot)
  {
    forall x | x in s[..i + 1] ensures less(x, pivot) {
      var j :| 0 <= j <= i && s[j] == x;
      assert !less(s[i], s[j]);
    }
  }

  lemma ManyBefore<T(!new)>(s: seq<T>, less: (T, T) -> bool, i: nat, pivot: T)
    requires WeakOrder(less) && Listed(s, less) && i < |s| && less(s[i], pivot)
    ensures CountBefore(s, less, pivot) > i
  {
    var p, q := s[..i + 1], s[i + 1..];
    AllBefore(s, less, i, pivot);
    assert s == p + q;
    FrontBefore(p, q, less, pivot);
  }

  lemma NoneBefore<T(!new)>(s: seq<T>, less: (T, T) -> bool, i: nat)
    requires WeakOrder(less) && Listed(s, less) && i < |s|
    ensures forall x | x in s[i..] :: !less(x, s[i])
  {
    forall x | x in s[i..] ensures !less(x, s[i]) {
      var j :| 0 <= j < |s[i..]| && s[i..][j] == x;
      assert x == s[i + j];
    }
  }

  lemma FewBefore<T(!new)>(s: seq<T>, less: (T, T) -> bool, i: nat)
    requires WeakOrder(less) && Listed(s, less) && i < |s|
    ensures CountBefore(s, less, s[i]) <= i
  {
    var p, q, pivot := s[..i], s[i..], s[i];
    NoneBefore(s, less, i);
    assert s == p + q;
    FrontBefore(p, q, less, pivot);
  }

  /** Two listings of one collection carry equal keys at every position. */
  lemma ListingsTie<T(!new)>(rows: multiset<T>, less: (T, T) -> bool, a: seq<T>, b: seq<T>, i: nat)
    requires WeakOrder(less) && Listing(rows, less, a) && Listing(rows, less, b) && i < |a| && i < |b|
    ensures !less(a[i], b[i])
  {
    if less(a[i], b[i]) {
      ManyBefore(a, less, i, b[i]);
      FewBefore(b, less, i);
      CountBeforePermutation(a, b, less, b[i]);
    }
  }

  /** A row strictly before the last kept row is kept with all its copies. */
  lemma KeptBeforeCut<T(!new)>(rows: multiset<T>, less: (T, T) -> bool, limit: Option<nat>, result: seq<T>, x: T)
    requires WeakOrder(less) && OrderByLimit(rows, less, limit, result)
    requires result != [] && less(x, result[|result| - 1])
    ensures multiset(result)[x] == rows[x]
  {
    var s :| Listing(rows, less, s) && result == Limit(s, limit);
    KeptBefore(s, less, |result|, x);
    assert result == s[..|result|];
  }

  lemma KeptBefore<T(!new)>(s: seq<T>, less: (T, T) -> bool, n: nat, x: T)
    requires WeakOrder(less) && Listed(s, less) && 0 < n <= |s| && less(x, s[n - 1])
    ensures multiset(s[..n])[x] == multiset(s)[x]
  {
    forall y | y in s[n..] ensures y != x {
      var j :| 0 <= j < |s[n..]| && s[n..][j] == y;
      assert !less(s[n + j], s[n - 1]);
    }
    assert s == s[..n] + s[n..];
    assert multiset(s[n..])[x] == 0;
  }

  lemma AnswersTie<T(!new)>(rows: multiset<T>, less: (T, T) -> bool, limit: Option<nat>, a: seq<T>, b: seq<T>)
    requires WeakOrder(less) && OrderByLimit(rows, less, limit, a) && OrderByLimit(rows, less, limit, b)
    ensures |a| == |b|
    ensures forall i | 0 <= i < |a| :: !less(a[i], b[i]) && !less(b[i], a[i])
  {
    var s :| Listing(rows, less, s) && a == Limit(s, limit);
    var t :| Listing(rows, less, t) && b == Limit(t, limit);
    assert |s| == |multiset(s)| == |multiset(t)| == |t|;
    forall i | 0 <= i < |a| ensures !less(a[i], b[i]) && !less(b[i], a[i]) {
      ListingsTie(rows, less, s, t, i);
      ListingsTie(rows, less, t, s, i);
    }
  }

  /** Two admissible answers have the same length and the same keys position by position, and
      they agree on every row that precedes the last key: only ties at the cut may differ. */
  lemma AnswersDifferOnlyInTies<T(!new)>(rows: multiset<T>, less: (T, T) -> bool, limit: Option<nat>, a: seq<T>, b: seq<T>, x: T)
    requires WeakOrder(less) && OrderByLimit(rows, less, limit, a) && OrderByLimit(rows, less, limit, b)
    ensures |a| == |b|
    ensures forall i | 0 <= i < |a| :: !less(a[i], b[i]) && !less(b[i], a[i])
    ensures a != [] && less(x, a[|a| - 1]) ==> multiset(a)[x] == multiset(b)[x] == rows[x]
  {
    AnswersTie(rows, less, limit, a, b);
    if a != [] && less(x, a[|a| - 1]) {
      KeptBeforeCut(rows, less, limit, a, x);
      KeptBeforeCut(rows, less, limit, b, x);
    }
  }


  // ---------- what every answer is ----------

  lemma AnswerSplit<T(!new)>(rows: multiset<T>, less: (T, T) -> bool, limit: Option<nat>, a: seq<T>) returns (rest: seq<T>)
    requires OrderByLimit(rows, less, limit, a)
    ensures multiset(a) + multiset(rest) == rows && Listed(a + rest, less)
    ensures rest == [] || limit == Some(|a|)
    ensures limit.Some? ==> |a| <= limit.value
  {
    var s :| Listing(rows, less, s) && a == Limit(s, limit);
    rest := s[|a|..];
    assert s == a + rest;
  }

  lemma LeftOver<T>(rows: multiset<T>, a: seq<T>, rest: seq<T>)
    requires multiset(a) + multiset(rest) == rows
    ensures |rows| == |a| + |rest| && multiset(a) <= rows
    ensures forall x | x in rows - multiset(a) :: x in rest
  {
    assert |multiset(a)| == |a| && |multiset(rest)| == |rest|;
    assert rows - multiset(a) == multiset(rest);
  }

  lemma NoneBehindPrecedes<T(!new)>(a: seq<T>, rest: seq<T>, less: (T, T) -> bool)
    requires Listed(a + rest, less)
    ensures forall i, j | 0 <= i < j < |a| :: !less(a[j], a[i])
    ensures forall x, i | x in rest && 0 <= i < |a| :: !less(x, a[i])
  {
    var s := a + rest;
    assert forall i | 0 <= i < |a| :: s[i] == a[i];
    forall x, i | x in rest && 0 <= i < |a| ensures !less(x, a[i]) {
      var j :| 0 <= j < |rest| && rest[j] == x;
      assert s[|a| + j] == x && s[i] == a[i];
    }
  }

  /** Every answer, ties or not, lists as many rows as the limit and the table allow, in an order
      the key permits, and no row left out precedes a row listed. */
  lemma AnswerShape<T(!new)>(rows: multiset<T>, less: (T, T) -> bool, limit: Option<nat>, a: seq<T>)
    requires OrderByLimit(rows, less, limit, a)
    ensures |a| == if limit.Some? && limit.value < |rows| then limit.value else |rows|
    ensures multiset(a) <= rows
    ensures forall i, j | 0 <= i < j < |a| :: !less(a[j], a[i])
    ensures forall x, i | x in rows - multiset(a) && 0 <= i < |a| :: !less(x, a[i])
  {
    var rest := AnswerSplit(rows, less, limit, a);
    LeftOver(rows, a, rest);
    NoneBehindPrecedes(a, rest, less);
  }

  lemma {:induction false} SameSize<A, B>(a: set<A>, b: set<B>, f: A -> B)
    requires forall x | x in a :: f(x) in b
    requires forall x, y | x in a && y in a && f(x) == f(y) :: x == y
    requires forall y | y in b :: exists x :: x in a && f(x) == y
    ensures |a| == |b|
    decreases a
  {
    if a == {} {
      assert b == {};
    } else {
      var x :| x in a;
      SameSize(a - {x}, b - {f(x)}, f);
    }
  }

  lemma LeftOut<T>(rows: set<T>, a: seq<T>, b: T)
    requires b in rows && b !in a
    ensures b in multiset(rows) - multiset(a)
  {
    assert multiset(a)[b] == 0;
  }

  lemma LeftOutIsCut<T>(rows: set<T>, a: seq<T>, b: T)
    requires multiset(a) <= multiset(rows) && b in multiset(rows) - multiset(a)
    ensures |a| < |rows|
  {
    assert |multiset(rows)| == |multiset(a)| + |multiset(rows) - multiset(a)|;
    assert |multiset(rows)| == |rows| && |multiset(a)| == |a|;
  }
}
