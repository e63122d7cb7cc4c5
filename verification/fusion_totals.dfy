/** `database/totalFusions.js`: for every species id 1 to 501, how many distinct base ids
    of the images table have it as the head and how many as the body of a fusion. The two
    SQL filters become string predicates and `COUNT(DISTINCT base_id)` the size of a set.

    The filters are looser than "head.body with both parts numeric": the head filter only
    asks for one digit after "<id>.", and the body filter only for a digit somewhere before
    ".<id>". The model follows the queries; `StrictMatch` states the
    all-numeric reading, and `LooseBodyMatch` and `TwoDotsMatch` show the two differ. */
module FusionTotals {
  import opened Text
  import opened Decimal
  import opened Catalog

  /** Highest species id the report covers. */
  const LastId: nat := 501

  /** One entry of `results`. */
  datatype Totals = Totals(head: nat, body: nat)

  predicate HasDigit(s: string) {
    exists i :: 0 <= i < |s| && IsDigit(s[i])
  }

  /** `base_id LIKE '<id>.%' AND base_id GLOB '<id>.[0-9]*'`: the base id starts with the
      number, a '.', and a digit. */
  predicate HeadMatch(baseId: string, id: nat) {
    var p := NatToString(id) + ".";
    |p| < |baseId| && baseId[..|p|] == p && IsDigit(baseId[|p|])
  }

  /** `base_id LIKE '%.<id>' AND base_id GLOB '*[0-9]*.<id>'`: the base id ends with '.'
      and the number, and has a digit somewhere before that suffix. */
  predicate BodyMatch(baseId: string, id: nat) {
    var s := "." + NatToString(id);
    |s| <= |baseId| && baseId[|baseId| - |s|..] == s && HasDigit(baseId[..|baseId| - |s|])
  }

  /** The distinct base ids of the images table: exactly the base ids of its rows, never
      more of them than rows, and none only for an empty table. */
  function BaseIds(rows: seq<ImageRow>): (ids: set<string>)
    ensures forall i :: 0 <= i < |rows| ==> rows[i].baseId in ids
    ensures forall b :: b in ids ==> exists i :: 0 <= i < |rows| && rows[i].baseId == b
    ensures |ids| <= |rows|
    ensures ids == {} <==> |rows| == 0
  {
    BaseIdsUpTo(rows, |rows|)
  }

  /** The base ids of the first `n` rows. */
  function BaseIdsUpTo(rows: seq<ImageRow>, n: nat): (ids: set<string>)
    requires n <= |rows|
    ensures forall i :: 0 <= i < n ==> rows[i].baseId in ids
    ensures forall b :: b in ids ==> exists i :: 0 <= i < n && rows[i].baseId == b
    ensures |ids| <= n
    ensures ids == {} <==> n == 0
  {
    if n == 0 then {} else BaseIdsUpTo(rows, n - 1) + {rows[n - 1].baseId}
  }

  /** The filter of the head query (`asHead`) or of the body query. */
  predicate Matches(baseId: string, id: nat, asHead: bool) {
    if asHead then HeadMatch(baseId, id) else BodyMatch(baseId, id)
  }

  /** The query counts `baseId` for `id` and for no other id. */
  ghost predicate CountedOnlyFor(baseId: string, id: nat, asHead: bool) {
    forall j: nat :: Matches(baseId, j, asHead) ==> j == id
  }

  /** The distinct base ids one query counts for `id`. */
  function Fusions(rows: seq<ImageRow>, id: nat, asHead: bool): (fs: set<string>)
    ensures forall b :: b in fs <==> b in BaseIds(rows) && Matches(b, id, asHead)
  {
    set b | b in BaseIds(rows) && Matches(b, id, asHead)
  }

  /** What one count is made of: distinct base ids of the table, each holding a '.', none
      counted by the same query for another id, and no more of them than rows. */
  lemma FusionsShape(rows: seq<ImageRow>, id: nat, asHead: bool)
    ensures Fusions(rows, id, asHead) <= BaseIds(rows)
    ensures forall b :: b in Fusions(rows, id, asHead) ==> '.' in b && CountedOnlyFor(b, id, asHead)
    ensures |Fusions(rows, id, asHead)| <= |rows|
  {
    MatchesHaveDot(id, asHead);
    MatchesPinId(id, asHead);
    SubsetCard(Fusions(rows, id, asHead), BaseIds(rows));
  }

  /** The counts of one id: distinct base ids with it as head, and as body. */
  function TotalsOf(rows: seq<ImageRow>, id: nat): Totals {
    Totals(|Fusions(rows, id, true)|, |Fusions(rows, id, false)|)
  }

  /** `results`: one entry per species id 1 to 501, holding that id's counts. */
  function Results(rows: seq<ImageRow>): (r: map<nat, Totals>)
    ensures forall id: nat :: id in r <==> 1 <= id <= LastId
  {
    map id: nat | 1 <= id <= LastId :: TotalsOf(rows, id)
  }

  /** The loop of `main`, filling `results` one id at a time. */
  method ComputeResults(rows: seq<ImageRow>) returns (results: map<nat, Totals>)
    ensures results == Results(rows)
  {
    results := map[];
    var id := 1;
    while id <= LastId
      invariant 1 <= id <= LastId + 1
      invariant forall k: nat :: k in results <==> 1 <= k < id
      invariant forall k: nat :: k in results ==> results[k] == TotalsOf(rows, k)
    {
      var head := |Fusions(rows, id, true)|;
      var body := |Fusions(rows, id, false)|;
      results := results[id := Totals(head, body)];
      id := id + 1;
    }
    assert results.Keys == Results(rows).Keys;
  }

  /** A head match pins the id: the number is exactly the text before the first '.'. */
  lemma HeadMatchUnique(baseId: string, i: nat, j: nat)
    requires HeadMatch(baseId, i) && HeadMatch(baseId, j)
    ensures i == j
  {
    var si := NatToString(i);
    var sj := NatToString(j);
    assert baseId == si + "." + baseId[|si| + 1..] by {
      assert baseId == baseId[..|si| + 1] + baseId[|si| + 1..];
    }
    assert baseId == sj + "." + baseId[|sj| + 1..] by {
      assert baseId == baseId[..|sj| + 1] + baseId[|sj| + 1..];
    }
    SeparatorHeadLength(si, baseId[|si| + 1..], sj, baseId[|sj| + 1..], '.');
    assert si == baseId[..|si|] == sj;
    NatToStringInjective(i, j);
  }

  /** A body match pins the id: the number is exactly the text after the last '.'. */
  lemma BodyMatchUnique(baseId: string, i: nat, j: nat)
    requires BodyMatch(baseId, i) && BodyMatch(baseId, j)
    ensures i == j
  {
    var si := NatToString(i);
    var sj := NatToString(j);
    var pi := baseId[..|baseId| - |si| - 1];
    var pj := baseId[..|baseId| - |sj| - 1];
    assert baseId == pi + "." + si by {
      assert baseId == pi + baseId[|baseId| - |si| - 1..];
    }
    assert baseId == pj + "." + sj by {
      assert baseId == pj + baseId[|baseId| - |sj| - 1..];
    }
    SeparatorTailLength(pi, si, pj, sj, '.');
    assert si == baseId[|baseId| - |si|..] == sj;
    NatToStringInjective(i, j);
  }

  /** Each base id is counted for at most one id by each query. */
  lemma MatchUnique(baseId: string, i: nat, j: nat, asHead: bool)
    requires Matches(baseId, i, asHead) && Matches(baseId, j, asHead)
    ensures i == j
  {
    if asHead {
      HeadMatchUnique(baseId, i, j);
    } else {
      BodyMatchUnique(baseId, i, j);
    }
  }

  /** A base id without a '.', such as a single species, is counted by neither query. */
  lemma NoDotNotCounted(baseId: string, id: nat, asHead: bool)
    requires '.' !in baseId
    ensures !Matches(baseId, id, asHead)
  {
    var s := NatToString(id);
    assert |s| + 1 <= |baseId| ==> baseId[..|s| + 1] != s + "." by {
      if |s| + 1 <= |baseId| {
        assert baseId[..|s| + 1][|s|] == baseId[|s|];
      }
    }
    assert |s| + 1 <= |baseId| ==> baseId[|baseId| - |s| - 1..] != "." + s by {
      if |s| + 1 <= |baseId| {
        assert baseId[|baseId| - |s| - 1..][0] == baseId[|baseId| - |s| - 1];
      }
    }
  }

  lemma MatchesHaveDot(id: nat, asHead: bool)
    ensures forall b :: Matches(b, id, asHead) ==> '.' in b
  {
    forall b ensures Matches(b, id, asHead) ==> '.' in b {
      if '.' !in b {
        NoDotNotCounted(b, id, asHead);
      }
    }
  }

  lemma MatchesPinId(id: nat, asHead: bool)
    ensures forall b :: Matches(b, id, asHead) ==> CountedOnlyFor(b, id, asHead)
  {
    forall b, j: nat | Matches(b, id, asHead) && Matches(b, j, asHead) ensures j == id {
      MatchUnique(b, id, j, asHead);
    }
  }

  /** "<h>.<k>" passes the head filter for h. */
  lemma FusionHeadMatches(h: nat, k: nat)
    ensures HeadMatch(NatToString(h) + "." + NatToString(k), h)
  {
    var sh := NatToString(h);
    var sk := NatToString(k);
    var b := sh + "." + sk;
    assert b[..|sh| + 1] == sh + ".";
    assert b[|sh| + 1] == sk[0];
  }

  /** "<h>.<k>" passes the body filter for k. */
  lemma FusionBodyMatches(h: nat, k: nat)
    ensures BodyMatch(NatToString(h) + "." + NatToString(k), k)
  {
    var sh := NatToString(h);
    var sk := NatToString(k);
    var s := "." + sk;
    var b := sh + s;
    assert b == sh + "." + sk;
    assert b[|b| - |s|..] == s;
    assert b[..|b| - |s|] == sh;
    assert IsDigit(sh[0]);
    assert HasDigit(sh);
  }

  /** A well-formed fusion "<h>.<k>" is counted as a head for h alone and as a body for
      k alone. */
  lemma FusionCountedOnce(h: nat, k: nat, id: nat)
    ensures HeadMatch(NatToString(h) + "." + NatToString(k), id) <==> id == h
    ensures BodyMatch(NatToString(h) + "." + NatToString(k), id) <==> id == k
  {
    var b := NatToString(h) + "." + NatToString(k);
    FusionHeadMatches(h, k);
    FusionBodyMatches(h, k);
    if HeadMatch(b, id) {
      HeadMatchUnique(b, h, id);
    }
    if BodyMatch(b, id) {
      BodyMatchUnique(b, k, id);
    }
  }

  /** Repeated base ids, such as the alts of one fusion, count once: adding a row whose
      base id is already present changes no total. */
  lemma DuplicatesCountOnce(rows: seq<ImageRow>, row: ImageRow)
    requires row.baseId in BaseIds(rows)
    ensures Results(rows + [row]) == Results(rows)
  {
    DuplicateAddsNoBaseId(rows, row);
    SameBaseIdsSameResults(rows + [row], rows);
  }

  lemma DuplicateAddsNoBaseId(rows: seq<ImageRow>, row: ImageRow)
    requires row.baseId in BaseIds(rows)
    ensures BaseIds(rows + [row]) == BaseIds(rows)
  {
    BaseIdsAppend(rows, row);
    AddMember(BaseIds(rows), row.baseId);
  }

  /** One more row adds its base id and nothing else. */
  lemma BaseIdsAppend(rows: seq<ImageRow>, row: ImageRow)
    ensures BaseIds(rows + [row]) == BaseIds(rows) + {row.baseId}
  {
    var more := rows + [row];
    SamePrefixSameBaseIds(more, rows, |rows|);
    assert more[|rows|] == row;
  }

  /** The base ids of the first `n` rows depend on those rows only. */
  lemma {:induction false} SamePrefixSameBaseIds(a: seq<ImageRow>, b: seq<ImageRow>, n: nat)
    requires n <= |a| && n <= |b| && forall i :: 0 <= i < n ==> a[i] == b[i]
    ensures BaseIdsUpTo(a, n) == BaseIdsUpTo(b, n)
  {
    if n > 0 {
      SamePrefixSameBaseIds(a, b, n - 1);
    }
  }

  /** The report depends on the table only through its set of base ids. */
  lemma SameBaseIdsSameResults(rows1: seq<ImageRow>, rows2: seq<ImageRow>)
    requires BaseIds(rows1) == BaseIds(rows2)
    ensures Results(rows1) == Results(rows2)
  {
    forall id: nat | 1 <= id <= LastId ensures TotalsOf(rows1, id) == TotalsOf(rows2, id) {
      SameBaseIdsSameFusions(rows1, rows2, id, true);
      SameBaseIdsSameFusions(rows1, rows2, id, false);
    }
  }

  /** The counts depend on the table only through its set of base ids. */
  lemma SameBaseIdsSameFusions(rows1: seq<ImageRow>, rows2: seq<ImageRow>, id: nat, asHead: bool)
    requires BaseIds(rows1) == BaseIds(rows2)
    ensures Fusions(rows1, id, asHead) == Fusions(rows2, id, asHead)
  {
  }

  /** An empty images table gives zero for every id. */
  lemma EmptyCatalogCountsNothing(id: nat)
    requires 1 <= id <= LastId
    ensures Results([])[id] == Totals(0, 0)
  {
    assert BaseIds([]) == {};
    assert Fusions([], id, true) == {};
    assert Fusions([], id, false) == {};
  }

  /** One query's per-id sets, as a function of the id. */
  function PerId(rows: seq<ImageRow>, asHead: bool): nat -> set<string> {
    (id: nat) => Fusions(rows, id, asHead)
  }

  /** Sum of one query's counts over ids 1 to `n`. */
  function CountSum(rows: seq<ImageRow>, n: nat, asHead: bool): nat {
    SizeSum(PerId(rows, asHead), n)
  }

  /** The base ids one query counts for some id in 1 to `n`. */
  function Counted(rows: seq<ImageRow>, n: nat, asHead: bool): set<string> {
    UnionUpTo(PerId(rows, asHead), n)
  }

  /** `f(1) + ... + f(n)`. */
  function UnionUpTo(f: nat -> set<string>, n: nat): set<string> {
    if n == 0 then {} else UnionUpTo(f, n - 1) + f(n)
  }

  /** `|f(1)| + ... + |f(n)|`. */
  function SizeSum(f: nat -> set<string>, n: nat): nat {
    if n == 0 then 0 else SizeSum(f, n - 1) + |f(n)|
  }

  /** `f(m)` shares no element with any `f(i)`, `1 <= i <= n`. */
  ghost predicate ApartFrom(f: nat -> set<string>, n: nat, m: nat) {
    forall i :: 1 <= i <= n ==> f(i) !! f(m)
  }

  /** A union of sets each apart from `f(m)` is apart from `f(m)`. */
  lemma {:induction false} UnionApart(f: nat -> set<string>, n: nat, m: nat)
    requires ApartFrom(f, n, m)
    ensures UnionUpTo(f, n) !! f(m)
  {
    if n > 0 {
      UnionApart(f, n - 1, m);
      assert f(n) !! f(m);
    }
  }

  /** `f(1)`, ..., `f(n)` are pairwise disjoint. */
  ghost predicate PairwiseApart(f: nat -> set<string>, n: nat) {
    forall i, j :: 1 <= i < j <= n ==> f(i) !! f(j)
  }

  /** Pairwise disjoint sets: the union is as large as the sum of the sizes. */
  lemma {:induction false} DisjointUnionSize(f: nat -> set<string>, n: nat)
    requires PairwiseApart(f, n)
    ensures |UnionUpTo(f, n)| == SizeSum(f, n)
  {
    if n > 0 {
      DisjointUnionSize(f, n - 1);
      assert ApartFrom(f, n - 1, n);
      UnionApart(f, n - 1, n);
      DisjointUnionCard(UnionUpTo(f, n - 1), f(n));
    }
  }

  /** A union of subsets of `s` is a subset of `s`. */
  lemma {:induction false} UnionWithin(f: nat -> set<string>, n: nat, s: set<string>)
    requires forall i :: 1 <= i <= n ==> f(i) <= s
    ensures UnionUpTo(f, n) <= s
  {
    if n > 0 {
      UnionWithin(f, n - 1, s);
      UnionSubset(UnionUpTo(f, n - 1), f(n), s);
    }
  }

  /** The per-id sets of one query are pairwise disjoint. */
  lemma FusionsDisjoint(rows: seq<ImageRow>, i: nat, j: nat, asHead: bool)
    requires i != j
    ensures Fusions(rows, i, asHead) !! Fusions(rows, j, asHead)
  {
    forall b | b in Fusions(rows, i, asHead) && b in Fusions(rows, j, asHead) ensures false {
      MatchUnique(b, i, j, asHead);
    }
  }

  /** The per-id sets are disjoint, so their union is as large as the sum of the counts,
      and every counted base id is a base id of the table. */
  lemma CountedSize(rows: seq<ImageRow>, n: nat, asHead: bool)
    ensures |Counted(rows, n, asHead)| == CountSum(rows, n, asHead)
    ensures Counted(rows, n, asHead) <= BaseIds(rows)
  {
    var f := PerId(rows, asHead);
    forall i, j | 1 <= i < j <= n ensures f(i) !! f(j) {
      FusionsDisjoint(rows, i, j, asHead);
    }
    DisjointUnionSize(f, n);
    forall i | 1 <= i <= n ensures f(i) <= BaseIds(rows) {
      FusionsShape(rows, i, asHead);
    }
    UnionWithin(f, n, BaseIds(rows));
  }

  /** Since a base id is counted for at most one id, the counts of one query over all
      ids add up to at most the number of distinct base ids. */
  lemma CountsBounded(rows: seq<ImageRow>, asHead: bool)
    ensures CountSum(rows, LastId, asHead) <= |BaseIds(rows)|
  {
    CountedSize(rows, LastId, asHead);
    SubsetCard(Counted(rows, LastId, asHead), BaseIds(rows));
  }

  /** The all-numeric reading of the two filters: "<id>.<digits>" for a head and
      "<digits>.<id>" for a body. */
  predicate StrictMatch(baseId: string, id: nat, asHead: bool) {
    if asHead then
      var p := NatToString(id) + ".";
      |p| < |baseId| && baseId[..|p|] == p && AllDigits(baseId[|p|..])
    else
      var s := "." + NatToString(id);
      |s| < |baseId| && baseId[|baseId| - |s|..] == s && AllDigits(baseId[..|baseId| - |s|])
  }

  /** The queries count every all-numeric fusion. */
  lemma StrictImpliesMatch(baseId: string, id: nat, asHead: bool)
    requires StrictMatch(baseId, id, asHead)
    ensures Matches(baseId, id, asHead)
  {
    if asHead {
      var p := NatToString(id) + ".";
      assert baseId[|p|..][0] == baseId[|p|];
    } else {
      var s := "." + NatToString(id);
      assert IsDigit(baseId[..|baseId| - |s|][0]);
    }
  }

  /** The body query is looser than the all-numeric reading: "12x.34" is counted as a
      body of 34. */
  lemma LooseBodyMatch()
    ensures Matches("12x.34", 34, false) && !StrictMatch("12x.34", 34, false)
  {
    assert NatToString(34) == "34" by {
      assert NatToString(3) == "3";
    }
    assert "12x.34"[..3][0] == '1';
    assert !IsDigit("12x.34"[..3][2]);
  }

  /** "1.2.3" is counted as a head of 1 and a body of 3, though neither reading is
      all-numeric "head.body". */
  lemma TwoDotsMatch()
    ensures Matches("1.2.3", 1, true) && !StrictMatch("1.2.3", 1, true)
    ensures Matches("1.2.3", 3, false) && !StrictMatch("1.2.3", 3, false)
  {
    assert NatToString(1) == "1";
    assert NatToString(3) == "3";
    assert "1.2.3"[2..][1] == '.';
    assert "1.2.3"[..3][0] == '1';
    assert "1.2.3"[..3][1] == '.';
  }

  /** Adding a member changes nothing. */
  lemma AddMember(a: set<string>, x: string)
    requires x in a
    ensures a + {x} == a
  {
  }

  /** Disjoint sets add up. */
  lemma DisjointUnionCard(a: set<string>, b: set<string>)
    requires a !! b
    ensures |a + b| == |a| + |b|
  {
    assert a * b == {};
  }

  /** Two subsets of `c` make a subset of `c`. */
  lemma UnionSubset(a: set<string>, b: set<string>, c: set<string>)
    requires a <= c && b <= c
    ensures a + b <= c
  {
  }

  /** A subset is no larger than its superset. */
  lemma SubsetCard(a: set<string>, b: set<string>)
    requires a <= b
    ensures |a| <= |b|
  {
    assert a * b == a;
    assert |b - a| == |b| - |a|;
  }
}
