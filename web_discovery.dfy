/** The subdomain word-list builder: take the host field of each line of
    the top-sites list, reduce each host to its subdomain (supplied from
    outside; the public-suffix lookup is not part of this model), add the
    dot-separated labels of every dotted subdomain, and rank the strings by
    how often they occur. */
module WebDiscovery {
  import opened Common

  // ---------------------------------------------------------------------
  // Line parse: `x.strip().split(',')[1]`

  /** The field starting just after the first comma of t: t[i+1..e] where
      i is the first comma and e is the next comma or the end. */
  predicate IsSecondField(t: string, f: string) {
    exists i: nat ::
      && i < |t| && t[i] == ',' && ',' !in t[..i]
      && i + 1 + |f| <= |t| && t[i + 1..i + 1 + |f|] == f
      && (i + 1 + |f| == |t| || t[i + 1 + |f|] == ',')
  }

  /** The second comma-separated field of the stripped line; None stands
      for the IndexError a line without a comma raises. */
  function SecondField(line: string): (r: Option<string>)
    ensures r.None? <==> ',' !in Trim(line, IsSpace)
    ensures r.Some? ==> ',' !in r.value && IsSecondField(Trim(line, IsSpace), r.value)
  {
    var t := Trim(line, IsSpace);
    var parts := SplitOn(t, ',');
    SecondFieldParts(t);
    if |parts| < 2 then None else Some(parts[1])
  }

  lemma SecondFieldParts(t: string)
    ensures |SplitOn(t, ',')| >= 2 <==> ',' in t
    ensures |SplitOn(t, ',')| >= 2 ==> ',' !in SplitOn(t, ',')[1] && IsSecondField(t, SplitOn(t, ',')[1])
  {
    if ',' in t {
      var i := IndexOf(t, ',');
      var u := t[i + 1..];
      SplitAtFirst(t);
      FirstPart(u);
      SecondFieldAt(t, i, SplitOn(u, ',')[0]);
    }
  }

  /** A comma-free prefix of the text after the first comma that reaches
      the next comma or the end is the second field. */
  lemma SecondFieldAt(t: string, i: nat, f: string)
    requires i < |t| && t[i] == ',' && ',' !in t[..i]
    requires |f| <= |t| - i - 1 && t[i + 1..][..|f|] == f
    requires |f| == |t| - i - 1 || t[i + 1..][|f|] == ','
    ensures IsSecondField(t, f)
  {
    SliceOfSuffix(t, i + 1, |f|);
    assert t[i + 1 + |f|..] == t[i + 1..][|f|..];
  }

  /** With a comma, the split is the text before it followed by the split of the rest. */
  lemma SplitAtFirst(t: string)
    requires ',' in t
    ensures |SplitOn(t, ',')| >= 2
    ensures SplitOn(t, ',')[1] == SplitOn(t[IndexOf(t, ',') + 1..], ',')[0]
  {
  }

  lemma SliceOfSuffix(t: string, a: nat, n: nat)
    requires a + n <= |t|
    ensures t[a..a + n] == t[a..][..n]
  {
  }

  /** The first part of a split is the text up to the first comma. */
  lemma FirstPart(u: string)
    ensures var f := SplitOn(u, ',')[0];
            && ',' !in f && |f| <= |u| && u[..|f|] == f
            && (|f| == |u| || u[|f|] == ',')
  {
    if ',' in u {
      var k := IndexOf(u, ',');
      assert SplitOn(u, ',')[0] == u[..k];
    } else {
      assert u[..|u|] == u;
    }
  }

  /** get_umbrella_data's final map over all downloaded lines; one line
      without a comma stops the script. */
  function HostField(lines: seq<string>): (r: Option<seq<string>>)
    ensures r.None? <==> exists k :: 0 <= k < |lines| && SecondField(lines[k]).None?
    ensures r.Some? ==> |r.value| == |lines|
    ensures r.Some? ==> forall k :: 0 <= k < |lines| ==> SecondField(lines[k]) == Some(r.value[k])
  {
    if forall k :: 0 <= k < |lines| ==> SecondField(lines[k]).Some? then
      Some(seq(|lines|, k requires 0 <= k < |lines| => SecondField(lines[k]).value))
    else
      None
  }

  // ---------------------------------------------------------------------
  // gen_sub_list: extend the list while iterating over it

  /** The labels appended for the dotted subdomains, in list order. */
  function Parts(subs: seq<string>): seq<string> {
    if subs == [] then []
    else
      var last := subs[|subs| - 1];
      Parts(subs[..|subs| - 1]) + (if '.' in last then SplitOn(last, '.') else [])
  }

  lemma {:induction false} PartsHaveNoDot(subs: seq<string>)
    ensures forall k :: 0 <= k < |Parts(subs)| ==> '.' !in Parts(subs)[k]
  {
    if subs != [] {
      PartsHaveNoDot(subs[..|subs| - 1]);
      SplitOnJoin(subs[|subs| - 1], '.');
    }
  }

  /** The loop `for sub in subs_list: if '.' in sub: subs_list.extend(sub.split('.'))`.
      Python's list iterator walks by index and sees the appended labels too;
      they hold no dot, so they append nothing and the loop ends. */
  method ExpandSubs(subs: seq<string>) returns (list: seq<string>)
    ensures list == subs + Parts(subs)
  {
    list := subs;
    var i := 0;
    PartsHaveNoDot(subs);
    while i < |list|
      invariant i <= |list|
      invariant i <= |subs| ==> list == subs + Parts(subs[..i])
      invariant i >= |subs| ==> list == subs + Parts(subs)
      decreases (if i < |subs| then |subs| - i else 0), |list| - i
    {
      var sub := list[i];
      ghost var before := list;
      if '.' in sub {
        list := list + SplitOn(sub, '.');
      }
      if i < |subs| {
        assert sub == subs[i];
        PartsStep(subs, i);
        AppendAssoc(subs, Parts(subs[..i]), list[|before|..]);
        if i + 1 == |subs| {
          assert subs[..i + 1] == subs;
        }
      } else {
        assert sub == Parts(subs)[i - |subs|];
      }
      i := i + 1;
    }
  }

  lemma PartsStep(subs: seq<string>, i: nat)
    requires i < |subs|
    ensures Parts(subs[..i + 1]) == Parts(subs[..i]) + (if '.' in subs[i] then SplitOn(subs[i], '.') else [])
  {
    assert subs[..i + 1][..i] == subs[..i];
  }

  function ExtraLength(subs: seq<string>): nat {
    if subs == [] then 0
    else
      var last := subs[|subs| - 1];
      ExtraLength(subs[..|subs| - 1]) + (if '.' in last then CountChar(last, '.') + 1 else 0)
  }

  /** The list grows by dots + 1 for every dotted subdomain and by nothing else. */
  lemma {:induction false} ExpandedLength(subs: seq<string>)
    ensures |subs + Parts(subs)| == |subs| + ExtraLength(subs)
  {
    PartsLength(subs);
  }

  lemma {:induction false} PartsLength(subs: seq<string>)
    ensures |Parts(subs)| == ExtraLength(subs)
  {
    if subs != [] {
      PartsLength(subs[..|subs| - 1]);
      SplitOnCount(subs[|subs| - 1], '.');
    }
  }

  // ---------------------------------------------------------------------
  // Counter(subs_list).most_common()

  function Occurrences(xs: seq<string>, x: string): nat {
    multiset(xs)[x]
  }

  function FirstIndex(xs: seq<string>, x: string): (r: nat)
    ensures r <= |xs|
    ensures r < |xs| <==> x in xs
    ensures r < |xs| ==> xs[r] == x
  {
    if xs == [] then 0 else if xs[0] == x then 0 else 1 + FirstIndex(xs[1..], x)
  }

  /** The keys of the counter in insertion order: each string at its first occurrence. */
  function Distinct(xs: seq<string>): (ds: seq<string>)
    ensures forall x :: x in ds <==> x in xs
  {
    if xs == [] then []
    else
      var init, last := xs[..|xs| - 1], xs[|xs| - 1];
      assert forall x :: x in xs <==> x in init || x == last;
      Distinct(init) + (if last in init then [] else [last])
  }

  /** Each key is recorded once. */
  lemma {:induction false} DistinctNoRepeats(xs: seq<string>)
    ensures forall i, j :: 0 <= i < j < |Distinct(xs)| ==> Distinct(xs)[i] != Distinct(xs)[j]
  {
    if xs != [] {
      DistinctNoRepeats(xs[..|xs| - 1]);
    }
  }

  /** The ranking order: more occurrences first; equal counts in order of
      first occurrence, which is what a stable sort by count of the
      insertion-ordered counter yields. */
  predicate Before(xs: seq<string>, a: string, b: string) {
    || Occurrences(xs, a) > Occurrences(xs, b)
    || (Occurrences(xs, a) == Occurrences(xs, b) && FirstIndex(xs, a) < FirstIndex(xs, b))
  }

  function Insert(xs: seq<string>, x: string, sorted: seq<string>): seq<string> {
    if sorted == [] then [x]
    else if Before(xs, x, sorted[0]) then [x] + sorted
    else [sorted[0]] + Insert(xs, x, sorted[1..])
  }

  function SortRanked(xs: seq<string>, ys: seq<string>): seq<string> {
    if ys == [] then [] else Insert(xs, ys[0], SortRanked(xs, ys[1..]))
  }

  /** Each entry comes before every later one. */
  predicate Ranked(xs: seq<string>, r: seq<string>) {
    r == [] || ((forall y :: y in r[1..] ==> Before(xs, r[0], y)) && Ranked(xs, r[1..]))
  }

  lemma BeforeTotal(xs: seq<string>, a: string, b: string)
    requires a in xs && b in xs && a != b
    ensures Before(xs, a, b) || Before(xs, b, a)
  {
  }

  lemma InsertMembers(xs: seq<string>, x: string, s: seq<string>)
    ensures forall y :: y in Insert(xs, x, s) <==> y == x || y in s
  {
    if s != [] && !Before(xs, x, s[0]) {
      InsertMembers(xs, x, s[1..]);
      assert forall y :: y in s <==> y == s[0] || y in s[1..];
    }
  }

  lemma {:induction false} InsertRanked(xs: seq<string>, x: string, s: seq<string>)
    requires Ranked(xs, s) && x in xs && x !in s
    requires forall y :: y in s ==> y in xs
    ensures Ranked(xs, Insert(xs, x, s))
  {
    if s == [] {
    } else if Before(xs, x, s[0]) {
      assert ([x] + s)[1..] == s;
      assert forall y :: y in s ==> y == s[0] || y in s[1..];
    } else {
      BeforeTotal(xs, x, s[0]);
      InsertRanked(xs, x, s[1..]);
      InsertMembers(xs, x, s[1..]);
      assert ([s[0]] + Insert(xs, x, s[1..]))[1..] == Insert(xs, x, s[1..]);
    }
  }

  lemma {:induction false} SortRankedCorrect(xs: seq<string>, ys: seq<string>)
    requires forall y :: y in ys ==> y in xs
    requires forall i, j :: 0 <= i < j < |ys| ==> ys[i] != ys[j]
    ensures Ranked(xs, SortRanked(xs, ys))
    ensures forall y :: y in SortRanked(xs, ys) <==> y in ys
  {
    if ys != [] {
      assert forall y :: y in ys <==> y == ys[0] || y in ys[1..];
      SortRankedCorrect(xs, ys[1..]);
      assert ys[0] !in ys[1..];
      InsertRanked(xs, ys[0], SortRanked(xs, ys[1..]));
      InsertMembers(xs, ys[0], SortRanked(xs, ys[1..]));
    }
  }

  lemma {:induction false} RankedPairwise(xs: seq<string>, r: seq<string>)
    requires Ranked(xs, r)
    ensures forall i, j :: 0 <= i < j < |r| ==> Before(xs, r[i], r[j])
  {
    if r != [] {
      RankedPairwise(xs, r[1..]);
      forall i, j | 0 <= i < j < |r| ensures Before(xs, r[i], r[j]) {
        if i == 0 {
          assert r[j] in r[1..];
        } else {
          assert r[i] == r[1..][i - 1] && r[j] == r[1..][j - 1];
        }
      }
    }
  }

  /** most_common(): each distinct string with its count, in ranking order. */
  function MostCommon(xs: seq<string>): seq<(string, nat)> {
    var r := SortRanked(xs, Distinct(xs));
    seq(|r|, k requires 0 <= k < |r| => (r[k], Occurrences(xs, r[k])))
  }

  /** Counting into the counter: a map from string to count, plus the keys
      in insertion order. */
  method CountOccurrences(xs: seq<string>) returns (counts: map<string, nat>, order: seq<string>)
    ensures order == Distinct(xs)
    ensures forall x :: x in counts <==> x in xs
    ensures forall x :: x in counts ==> counts[x] == Occurrences(xs, x)
  {
    counts, order := map[], [];
    for i := 0 to |xs|
      invariant order == Distinct(xs[..i])
      invariant Counts(xs[..i], counts)
    {
      var x := xs[i];
      assert xs[..i + 1] == xs[..i] + [x];
      DistinctSnoc(xs[..i], x);
      TallyCounts(xs[..i], x, counts);
      if x !in counts {
        order := order + [x];
      }
      counts := Tally(counts, x);
    }
    assert xs[..|xs|] == xs;
  }

  /** The counter holds exactly the strings of xs, each with its count. */
  ghost predicate Counts(xs: seq<string>, counts: map<string, nat>) {
    && (forall x :: x in counts <==> x in xs)
    && (forall x :: x in counts ==> counts[x] == Occurrences(xs, x))
  }

  /** One `counter[x] += 1`. */
  function Tally(counts: map<string, nat>, x: string): map<string, nat> {
    if x in counts then counts[x := counts[x] + 1] else counts[x := 1]
  }

  lemma TallyCounts(xs: seq<string>, x: string, counts: map<string, nat>)
    requires Counts(xs, counts)
    ensures Counts(xs + [x], Tally(counts, x))
  {
    OccurrencesSnoc(xs, x);
  }

  lemma DistinctSnoc(xs: seq<string>, x: string)
    ensures Distinct(xs + [x]) == Distinct(xs) + (if x in xs then [] else [x])
  {
    assert (xs + [x])[..|xs|] == xs;
  }

  lemma OccurrencesSnoc(xs: seq<string>, x: string)
    ensures forall y :: y in xs + [x] <==> y in xs || y == x
    ensures forall y :: Occurrences(xs + [x], y) == Occurrences(xs, y) + (if y == x then 1 else 0)
  {
    assert multiset(xs + [x]) == multiset(xs) + multiset{x};
  }

  /** gen_sub_list(subdomains): expand, count, rank. */
  method GenSubList(subs: seq<string>) returns (ranking: seq<(string, nat)>)
    ensures ranking == MostCommon(subs + Parts(subs))
  {
    var list := ExpandSubs(subs);
    var counts, order := CountOccurrences(list);
    var sorted := SortRanked(list, order);
    DistinctNoRepeats(list);
    SortRankedCorrect(list, order);
    assert forall k :: 0 <= k < |sorted| ==> sorted[k] in counts;
    ranking := seq(|sorted|, k requires 0 <= k < |sorted| => (sorted[k], counts[sorted[k]]));
    assert sorted == SortRanked(list, Distinct(list));
    forall k | 0 <= k < |ranking| ensures ranking[k] == MostCommon(list)[k] {
      assert ranking[k] == (sorted[k], Occurrences(list, sorted[k]));
    }
  }

  function SumCounts(ranking: seq<(string, nat)>): nat {
    if ranking == [] then 0 else ranking[0].1 + SumCounts(ranking[1..])
  }

  function SumOccurrences(xs: seq<string>, ds: seq<string>): nat {
    if ds == [] then 0 else Occurrences(xs, ds[0]) + SumOccurrences(xs, ds[1..])
  }

  lemma {:induction false} SumOccurrencesAppend(xs: seq<string>, a: seq<string>, b: seq<string>)
    ensures SumOccurrences(xs, a + b) == SumOccurrences(xs, a) + SumOccurrences(xs, b)
  {
    if a == [] {
      assert a + b == b;
    } else {
      assert (a + b)[1..] == a[1..] + b;
      SumOccurrencesAppend(xs, a[1..], b);
    }
  }

  lemma {:induction false} SumOccurrencesInsert(xs: seq<string>, x: string, s: seq<string>)
    ensures SumOccurrences(xs, Insert(xs, x, s)) == Occurrences(xs, x) + SumOccurrences(xs, s)
  {
    if s != [] && !Before(xs, x, s[0]) {
      SumOccurrencesInsert(xs, x, s[1..]);
    }
  }

  lemma {:induction false} SumOccurrencesSorted(xs: seq<string>, ys: seq<string>)
    ensures SumOccurrences(xs, SortRanked(xs, ys)) == SumOccurrences(xs, ys)
  {
    if ys != [] {
      SumOccurrencesSorted(xs, ys[1..]);
      SumOccurrencesInsert(xs, ys[0], SortRanked(xs, ys[1..]));
    }
  }

  /** Adding one more x to the counted list adds one to the sum over any
      duplicate-free key list that holds x, and nothing otherwise. */
  lemma {:induction false} SumOccurrencesGrow(init: seq<string>, x: string, ds: seq<string>)
    requires forall i, j :: 0 <= i < j < |ds| ==> ds[i] != ds[j]
    ensures SumOccurrences(init + [x], ds) == SumOccurrences(init, ds) + (if x in ds then 1 else 0)
  {
    if ds != [] {
      assert multiset(init + [x]) == multiset(init) + multiset{x};
      SumOccurrencesGrow(init, x, ds[1..]);
      assert x in ds <==> x == ds[0] || x in ds[1..];
      if x == ds[0] {
        assert x !in ds[1..];
      }
    }
  }

  lemma {:induction false} SumOccurrencesDistinct(xs: seq<string>)
    ensures SumOccurrences(xs, Distinct(xs)) == |xs|
  {
    if xs != [] {
      var init, last := xs[..|xs| - 1], xs[|xs| - 1];
      assert xs == init + [last];
      SumOccurrencesDistinct(init);
      DistinctNoRepeats(init);
      var d := Distinct(init);
      SumOccurrencesGrow(init, last, d);
      if last !in init {
        SumOccurrencesAppend(xs, d, [last]);
        assert multiset(init)[last] == 0;
        assert multiset(xs)[last] == multiset(init)[last] + 1;
        assert SumOccurrences(xs, [last]) == Occurrences(xs, last);
        assert Distinct(xs) == d + [last];
      } else {
        assert Distinct(xs) == d;
      }
    }
  }

  lemma {:induction false} SumCountsOfPairs(xs: seq<string>, r: seq<string>)
    ensures SumCounts(seq(|r|, k requires 0 <= k < |r| => (r[k], Occurrences(xs, r[k]))))
              == SumOccurrences(xs, r)
  {
    if r != [] {
      var p := seq(|r|, k requires 0 <= k < |r| => (r[k], Occurrences(xs, r[k])));
      SumCountsOfPairs(xs, r[1..]);
      assert p[1..] == seq(|r[1..]|, k requires 0 <= k < |r[1..]| => (r[1..][k], Occurrences(xs, r[1..][k])));
    }
  }

  /** What most_common() promises: every string of the list appears exactly
      once with its number of occurrences, the counts add up to the length
      of the list, and the entries are in non-increasing order of count,
      ties in order of first occurrence. */
  lemma MostCommonCorrect(xs: seq<string>)
    ensures forall x :: x in xs <==> exists k :: 0 <= k < |MostCommon(xs)| && MostCommon(xs)[k].0 == x
    ensures forall i, j :: 0 <= i < j < |MostCommon(xs)| ==> MostCommon(xs)[i].0 != MostCommon(xs)[j].0
    ensures forall k :: 0 <= k < |MostCommon(xs)| ==> MostCommon(xs)[k].1 == Occurrences(xs, MostCommon(xs)[k].0)
    ensures SumCounts(MostCommon(xs)) == |xs|
    ensures forall i, j :: 0 <= i < j < |MostCommon(xs)| ==>
              || MostCommon(xs)[i].1 > MostCommon(xs)[j].1
              || (MostCommon(xs)[i].1 == MostCommon(xs)[j].1
                  && FirstIndex(xs, MostCommon(xs)[i].0) < FirstIndex(xs, MostCommon(xs)[j].0))
  {
    var ds := Distinct(xs);
    var r := SortRanked(xs, ds);
    DistinctNoRepeats(xs);
    SortRankedCorrect(xs, ds);
    RankedPairwise(xs, r);
    var m := MostCommon(xs);
    assert |m| == |r|;
    forall x ensures x in xs <==> exists k :: 0 <= k < |m| && m[k].0 == x {
      if x in xs {
        var k :| 0 <= k < |r| && r[k] == x;
        assert m[k].0 == x;
      }
    }
    forall i, j | 0 <= i < j < |m| ensures m[i].0 != m[j].0 {
      assert Before(xs, r[i], r[j]);
    }
    SumCountsOfPairs(xs, r);
    SumOccurrencesSorted(xs, ds);
    SumOccurrencesDistinct(xs);
  }

  // ---------------------------------------------------------------------
  // Output

  /** One printed line per ranking entry: "<count> <name>" with --count,
      the name alone otherwise. */
  function OutputLines(ranking: seq<(string, nat)>, withCount: bool): (lines: seq<string>)
    ensures |lines| == |ranking|
  {
    seq(|ranking|, k requires 0 <= k < |ranking| =>
      if withCount then Decimal(ranking[k].1) + " " + ranking[k].0 else ranking[k].0)
  }

  /** A counted line reads back as its count, one space, and its name. */
  lemma OutputLineReadsBack(ranking: seq<(string, nat)>, k: nat)
    requires k < |ranking|
    ensures var line := OutputLines(ranking, true)[k];
            var w := |Decimal(ranking[k].1)|;
            && w < |line| && line[w] == ' ' && line[w + 1..] == ranking[k].0
            && (forall i :: 0 <= i < w ==> IsDigit(line[i]))
            && DecimalValue(line[..w]) == ranking[k].1
  {
    var d := Decimal(ranking[k].1);
    var line := OutputLines(ranking, true)[k];
    assert line == d + " " + ranking[k].0;
    assert line[..|d|] == d;
    DecimalRoundTrip(ranking[k].1);
  }

  datatype WordlistType = Sub | Uri

  datatype Outcome = Printed(lines: seq<string>) | Exited(status: int) | Crashed

  /** The script's main block after argument parsing: the "sub" word list
      from the downloaded lines, or an error exit for "uri", which produces
      no result. */
  method Run(kind: WordlistType, lines: seq<string>, subdomainOf: string -> string, withCount: bool)
    returns (out: Outcome)
    ensures kind == Uri ==> out == Exited(1)
    ensures kind == Sub ==> (out.Crashed? <==> HostField(lines).None?)
    ensures kind == Sub && HostField(lines).Some? ==>
              var subs := seq(|lines|, k requires 0 <= k < |lines| => subdomainOf(HostField(lines).value[k]));
              out == Printed(OutputLines(MostCommon(subs + Parts(subs)), withCount))
  {
    if kind == Uri {
      return Exited(1);
    }
    var hosts := HostField(lines);
    if hosts.None? {
      return Crashed;
    }
    var subs := seq(|hosts.value|, k requires 0 <= k < |hosts.value| => subdomainOf(hosts.value[k]));
    var ranking := GenSubList(subs);
    out := Printed(OutputLines(ranking, withCount));
  }
}
