/** The two aggregation passes of the program's entry point: the number of
    tickers per exchange country, and the mean salary per batting average. Both
    drain the deque of records `select_all` returned, front first. */
module Aggregation {
  import opened Seqs
  import opened Dicts
  import opened Records

  /** The exchange country of every stock, in order. */
  function Countries(stocks: seq<StockStatRecord>): (cs: seq<string>)
    ensures |cs| == |stocks|
  {
    if stocks == [] then [] else Countries(stocks[..|stocks| - 1]) + [stocks[|stocks| - 1].exchangeCountry]
  }

  /** The batting average of every player, in order. */
  function Averages(players: seq<BaseballStatRecord>): (avgs: seq<real>)
    ensures |avgs| == |players|
  {
    if players == [] then [] else Averages(players[..|players| - 1]) + [players[|players| - 1].avg]
  }

  /** The salary of every player, in order. */
  function Salaries(players: seq<BaseballStatRecord>): (salaries: seq<real>)
    ensures |salaries| == |players|
  {
    if players == [] then [] else Salaries(players[..|players| - 1]) + [players[|players| - 1].salary]
  }

  /** Sum of the values of `m` over `keys`. */
  function SumValues<K(==)>(keys: seq<K>, m: map<K, nat>): nat
    requires forall i | 0 <= i < |keys| :: keys[i] in m
  {
    if keys == [] then 0 else SumValues(keys[..|keys| - 1], m) + m[keys[|keys| - 1]]
  }

  /** When each value is a key's number of occurrences in `s`, the sum of the
      values is the sum of those occurrence counts. */
  lemma {:induction false} SumValuesOccurrences<K>(keys: seq<K>, m: map<K, nat>, s: seq<K>)
    requires forall i | 0 <= i < |keys| :: keys[i] in m && m[keys[i]] == Occurrences(s, keys[i])
    ensures SumValues(keys, m) == SumOccurrences(keys, s)
  {
    if keys != [] {
      SumValuesOccurrences(keys[..|keys| - 1], m, s);
    }
  }

  /** `counts` is the ticker count of the countries `xs`: the distinct
      countries in first-seen order, each with its number of occurrences. */
  ghost predicate CountsOf(counts: Dict<string, nat>, xs: seq<string>)
  {
    && counts.Valid()
    && counts.keys == FirstSeen(xs)
    && forall c | c in counts.entries :: counts.entries[c] == Occurrences(xs, c)
  }

  /** One iteration of the ticker count keeps `CountsOf`. */
  lemma CountStep(counts: Dict<string, nat>, xs: seq<string>, c: string, n: nat)
    requires CountsOf(counts, xs)
    requires n == if c in counts.entries then counts.entries[c] + 1 else 1
    ensures CountsOf(counts.Update(c, n), xs + [c])
  {
    counts.UpdateValid(c, n);
    var d := counts.Update(c, n);
    FirstSeenSnoc(xs, c);
    assert c in counts.entries <==> c in FirstSeen(xs);
    forall k | k in d.entries ensures d.entries[k] == Occurrences(xs + [c], k) {
      OccurrencesSnoc(xs, c, k);
      if k == c && c !in counts.entries {
        OccurrencesZero(xs, k);
      }
    }
  }

  /** The counts of a ticker count add up to the number of stocks counted. */
  lemma CountsSum(counts: Dict<string, nat>, xs: seq<string>)
    requires CountsOf(counts, xs)
    ensures SumValues(counts.keys, counts.entries) == |xs|
  {
    SumValuesOccurrences(counts.keys, counts.entries, xs);
    SumOccurrencesFirstSeen(xs);
  }

  /** The ticker count of `xs`, built one country at a time from the left the
      way the loop builds it: a new country starts at one, a known one goes up
      by one. */
  function CountFold(xs: seq<string>): (counts: Dict<string, nat>)
  {
    if xs == [] then EmptyDict()
    else
      var counts := CountFold(xs[..|xs| - 1]);
      var c := xs[|xs| - 1];
      counts.Update(c, if c in counts.entries then counts.entries[c] + 1 else 1)
  }

  /** The fold is a ticker count: first-seen keys, occurrence counts. */
  lemma {:induction false} CountFoldCounts(xs: seq<string>)
    ensures CountsOf(CountFold(xs), xs)
  {
    if xs != [] {
      var init := xs[..|xs| - 1];
      CountFoldCounts(init);
      var counts := CountFold(init);
      var c := xs[|xs| - 1];
      assert xs == init + [c];
      CountStep(counts, init, c, if c in counts.entries then counts.entries[c] + 1 else 1);
    }
  }

  /** What the ticker count of a list of stocks holds: the distinct countries
      in first-seen order, each with its number of stocks, adding up to the
      number of stocks. */
  lemma CountFoldSpec(stocks: seq<StockStatRecord>)
    ensures CountFold(Countries(stocks)).Valid()
    ensures CountFold(Countries(stocks)).keys == FirstSeen(Countries(stocks))
    ensures forall c | c in CountFold(Countries(stocks)).entries ::
      CountFold(Countries(stocks)).entries[c] == Occurrences(Countries(stocks), c)
    ensures SumValues(CountFold(Countries(stocks)).keys, CountFold(Countries(stocks)).entries) == |stocks|
  {
    CountFoldCounts(Countries(stocks));
    CountsSum(CountFold(Countries(stocks)), Countries(stocks));
  }

  /** Counting one more stock updates its country's count the way one
      iteration of the loop does. */
  lemma CountFoldStep(stocks: seq<StockStatRecord>, s: StockStatRecord)
    ensures CountFold(Countries(stocks + [s])) == CountFold(Countries(stocks)).Update(s.exchangeCountry,
      if s.exchangeCountry in CountFold(Countries(stocks)).entries then CountFold(Countries(stocks)).entries[s.exchangeCountry] + 1 else 1)
  {
    CountriesSnoc(stocks, s);
    assert (Countries(stocks) + [s.exchangeCountry])[..|stocks|] == Countries(stocks);
  }

  /** The countries of one more stock. */
  lemma CountriesSnoc(stocks: seq<StockStatRecord>, s: StockStatRecord)
    ensures Countries(stocks + [s]) == Countries(stocks) + [s.exchangeCountry]
  {
    assert (stocks + [s])[..|stocks|] == stocks;
  }

  /** The ticker count: for every stock taken off the front of the deque, its
      exchange country's count goes up by one, starting at one for a country
      not seen before. The countries come out in first-seen order, each with
      the number of stocks listed there, and the counts add up to the number of
      stocks. */
  method CountTickersByCountry(stocks: seq<StockStatRecord>) returns (counts: Dict<string, nat>)
    ensures counts == CountFold(Countries(stocks))
    ensures counts.Valid()
    ensures counts.keys == FirstSeen(Countries(stocks))
    ensures forall c | c in counts.entries :: counts.entries[c] == Occurrences(Countries(stocks), c)
    ensures SumValues(counts.keys, counts.entries) == |stocks|
  {
    counts := EmptyDict();
    var queue := stocks;
    ghost var done: seq<StockStatRecord> := [];
    while queue != []
      invariant done + queue == stocks
      invariant counts == CountFold(Countries(done))
      decreases |queue|
    {
      var item := queue[0];
      queue := queue[1..];
      var country := item.exchangeCountry;
      CountFoldStep(done, item);
      if country !in counts.entries {
        counts := counts.Update(country, 1);
      } else {
        var n := counts.entries[country];
        counts := counts.Update(country, n + 1);
      }
      done := done + [item];
    }
    assert done == stocks;
    CountFoldSpec(stocks);
  }

  /** The salaries of the players whose batting average is exactly `a`, in
      deque order. */
  function SalariesWithAverage(players: seq<BaseballStatRecord>, a: real): (salaries: seq<real>)
    ensures |salaries| == Occurrences(Averages(players), a)
  {
    if players == [] then []
    else
      var last := players[|players| - 1];
      SalariesWithAverage(players[..|players| - 1], a) + (if last.avg == a then [last.salary] else [])
  }

  /** `groups` is the salary grouping of `players`: the distinct averages in
      first-seen order, each with the salaries of the players that have it. */
  ghost predicate GroupsOf(groups: Dict<real, seq<real>>, players: seq<BaseballStatRecord>)
  {
    && groups.Valid()
    && groups.keys == FirstSeen(Averages(players))
    && forall a | a in groups.entries :: groups.entries[a] == SalariesWithAverage(players, a)
  }

  /** One iteration of the salary grouping keeps `GroupsOf`. */
  lemma GroupStep(groups: Dict<real, seq<real>>, players: seq<BaseballStatRecord>, p: BaseballStatRecord)
    requires GroupsOf(groups, players)
    ensures GroupsOf(groups.Update(p.avg, (if p.avg in groups.entries then groups.entries[p.avg] else []) + [p.salary]),
                     players + [p])
  {
    var salaries := (if p.avg in groups.entries then groups.entries[p.avg] else []) + [p.salary];
    var d := groups.Update(p.avg, salaries);
    var ps := players + [p];
    assert d.Valid() by {
      groups.UpdateValid(p.avg, salaries);
    }
    assert d.keys == FirstSeen(Averages(ps)) by {
      AveragesSnoc(players, p);
      FirstSeenSnoc(Averages(players), p.avg);
      assert p.avg in groups.entries <==> p.avg in FirstSeen(Averages(players));
    }
    forall a | a in d.entries ensures d.entries[a] == SalariesWithAverage(ps, a) {
      SalariesWithAverageSnoc(players, p, a);
      if a == p.avg && a !in groups.entries {
        OccurrencesZero(Averages(players), a);
      }
    }
  }

  /** The averages of one more player. */
  lemma AveragesSnoc(players: seq<BaseballStatRecord>, p: BaseballStatRecord)
    ensures Averages(players + [p]) == Averages(players) + [p.avg]
  {
    assert (players + [p])[..|players|] == players;
  }

  /** One more player adds its salary to the salaries of its own average only. */
  lemma SalariesWithAverageSnoc(players: seq<BaseballStatRecord>, p: BaseballStatRecord, a: real)
    ensures SalariesWithAverage(players + [p], a)
         == SalariesWithAverage(players, a) + (if p.avg == a then [p.salary] else [])
  {
    assert (players + [p])[..|players|] == players;
  }

  /** The salary grouping of `players`, built one player at a time from the
      left the way the loop builds it: the salary is appended to the list kept
      under the player's average, a new list for a new average. */
  function GroupFold(players: seq<BaseballStatRecord>): Dict<real, seq<real>>
  {
    if players == [] then EmptyDict()
    else
      var groups := GroupFold(players[..|players| - 1]);
      var p := players[|players| - 1];
      groups.Update(p.avg, (if p.avg in groups.entries then groups.entries[p.avg] else []) + [p.salary])
  }

  /** Grouping one more player appends its salary the way one iteration of the
      loop does. */
  lemma GroupFoldStep(players: seq<BaseballStatRecord>, p: BaseballStatRecord)
    ensures GroupFold(players + [p]) == GroupFold(players).Update(p.avg,
      (if p.avg in GroupFold(players).entries then GroupFold(players).entries[p.avg] else []) + [p.salary])
  {
    assert (players + [p])[..|players|] == players;
  }

  /** The fold is a salary grouping: first-seen keys, each with the salaries
      of the players that have it. */
  lemma {:induction false} GroupFoldGroups(players: seq<BaseballStatRecord>)
    ensures GroupsOf(GroupFold(players), players)
  {
    if players != [] {
      var init := players[..|players| - 1];
      GroupFoldGroups(init);
      assert players == init + [players[|players| - 1]];
      GroupStep(GroupFold(init), init, players[|players| - 1]);
    }
  }

  /** The salary grouping: for every player taken off the front of the deque,
      the salary is appended to the list kept under the player's batting
      average (a new list for an average not seen before). The averages come
      out in first-seen order, each with the salaries of exactly the players
      that have it, in deque order. */
  method GroupSalariesByAverage(players: seq<BaseballStatRecord>) returns (groups: Dict<real, seq<real>>)
    ensures groups == GroupFold(players)
    ensures groups.Valid()
    ensures groups.keys == FirstSeen(Averages(players))
    ensures forall a | a in groups.entries :: groups.entries[a] == SalariesWithAverage(players, a)
  {
    groups := EmptyDict();
    var queue := players;
    ghost var done: seq<BaseballStatRecord> := [];
    while queue != []
      invariant done + queue == players
      invariant groups == GroupFold(done)
      decreases |queue|
    {
      var item := queue[0];
      queue := queue[1..];
      GroupFoldStep(done, item);
      var salaryList: seq<real>;
      if item.avg !in groups.entries {
        salaryList := [];
      } else {
        salaryList := groups.entries[item.avg];
      }
      salaryList := salaryList + [item.salary];
      groups := groups.Update(item.avg, salaryList);
      done := done + [item];
    }
    assert done == players;
    GroupFoldGroups(players);
  }

  /** The salaries of all the groups, listed group after group in key order. */
  function Flatten(keys: seq<real>, players: seq<BaseballStatRecord>): seq<real>
  {
    if keys == [] then [] else Flatten(keys[..|keys| - 1], players) + SalariesWithAverage(players, keys[|keys| - 1])
  }

  /** One more player adds its salary once if its average is one of the
      (distinct) keys, and not at all otherwise. */
  lemma {:induction false} FlattenSnoc(keys: seq<real>, players: seq<BaseballStatRecord>, p: BaseballStatRecord, v: real)
    requires Distinct(keys)
    ensures Occurrences(Flatten(keys, players + [p]), v)
         == Occurrences(Flatten(keys, players), v) + if p.avg in keys && p.salary == v then 1 else 0
  {
    if keys != [] {
      var init, k := keys[..|keys| - 1], keys[|keys| - 1];
      var ps := players + [p];
      assert keys == init + [k];
      assert p.avg in keys <==> p.avg in init || p.avg == k;
      assert p.avg == k ==> p.avg !in init;
      FlattenSnoc(init, players, p, v);
      SalariesWithAverageSnoc(players, p, k);
      OccurrencesAppend(Flatten(init, ps), SalariesWithAverage(ps, k), v);
      OccurrencesAppend(Flatten(init, players), SalariesWithAverage(players, k), v);
      OccurrencesAppend(SalariesWithAverage(players, k), if p.avg == k then [p.salary] else [], v);
    }
  }

  /** One more player adds its salary exactly once to the groups taken
      together, whether its average is new or already a key. */
  lemma GroupsSnoc(players: seq<BaseballStatRecord>, p: BaseballStatRecord, v: real)
    ensures Occurrences(Flatten(FirstSeen(Averages(players + [p])), players + [p]), v)
         == Occurrences(Flatten(FirstSeen(Averages(players)), players), v) + if p.salary == v then 1 else 0
  {
    var earlier := FirstSeen(Averages(players));
    assert FirstSeen(Averages(players + [p])) == if p.avg in earlier then earlier else earlier + [p.avg] by {
      AveragesSnoc(players, p);
      FirstSeenSnoc(Averages(players), p.avg);
    }
    FlattenSnoc(earlier, players, p, v);
    if p.avg !in earlier {
      var f := earlier + [p.avg];
      assert f[..|f| - 1] == earlier;
      SalariesWithAverageSnoc(players, p, p.avg);
      assert SalariesWithAverage(players, p.avg) == [] by {
        OccurrencesZero(Averages(players), p.avg);
      }
      OccurrencesAppend(Flatten(earlier, players + [p]), [p.salary], v);
    }
  }

  /** Every player's salary lands in exactly one group: taken together, the
      groups hold every salary value exactly as often as the players have it,
      so the groups are a permutation of the salaries. */
  lemma {:induction false} GroupsPartitionSalaries(players: seq<BaseballStatRecord>, v: real)
    ensures Occurrences(Flatten(FirstSeen(Averages(players)), players), v) == Occurrences(Salaries(players), v)
  {
    if players != [] {
      var init, last := players[..|players| - 1], players[|players| - 1];
      assert players == init + [last];
      GroupsPartitionSalaries(init, v);
      GroupsSnoc(init, last, v);
      assert Salaries(players) == Salaries(init) + [last.salary];
      OccurrencesSnoc(Salaries(init), last.salary, v);
    }
  }

  /** Sum of a list of salaries (Python's `sum`). */
  function Sum(v: seq<real>): real
  {
    if v == [] then 0.0 else Sum(v[..|v| - 1]) + v[|v| - 1]
  }

  /** `sum(v) / len(v)`, the value the last loop stores for a group. */
  function Mean(v: seq<real>): real
    requires |v| > 0
  {
    Sum(v) / |v| as real
  }

  /** A sum of values between `lo` and `hi` lies between `|v| * lo` and `|v| * hi`. */
  lemma {:induction false} SumBounds(v: seq<real>, lo: real, hi: real)
    requires forall i | 0 <= i < |v| :: lo <= v[i] <= hi
    ensures |v| as real * lo <= Sum(v) <= |v| as real * hi
  {
    if v != [] {
      SumBounds(v[..|v| - 1], lo, hi);
      assert v[|v| - 1] == v[..|v|][|v| - 1];
    }
  }

  /** The mean of a group lies between its smallest and largest salary. */
  lemma MeanBounds(v: seq<real>, lo: real, hi: real)
    requires |v| > 0
    requires forall i | 0 <= i < |v| :: lo <= v[i] <= hi
    ensures lo <= Mean(v) <= hi
  {
    SumBounds(v, lo, hi);
    var n := |v| as real;
    assert n * lo <= Sum(v) <= n * hi;
    assert Mean(v) * n == Sum(v);
  }

  /** The means of the groups under `keys`, put into a fresh dict in the order
      of `keys`. */
  function MeansOf(groups: Dict<real, seq<real>>, keys: seq<real>): Dict<real, real>
    requires forall i | 0 <= i < |keys| :: keys[i] in groups.entries
    requires forall a | a in groups.entries :: |groups.entries[a]| > 0
  {
    if keys == [] then EmptyDict()
    else
      var k := keys[|keys| - 1];
      MeansOf(groups, keys[..|keys| - 1]).Update(k, Mean(groups.entries[k]))
  }

  /** Adding the mean of one more group keeps a dict of means in step with the
      groups, with the new key last. */
  lemma MeansStep(means: Dict<real, real>, groups: Dict<real, seq<real>>, keys: seq<real>, k: real)
    requires means.Valid() && means.keys == keys
    requires forall a | a in means.entries :: a in groups.entries && |groups.entries[a]| > 0 && means.entries[a] == Mean(groups.entries[a])
    requires k !in keys && k in groups.entries && |groups.entries[k]| > 0
    ensures means.Update(k, Mean(groups.entries[k])).Valid()
    ensures means.Update(k, Mean(groups.entries[k])).keys == keys + [k]
    ensures forall a | a in means.Update(k, Mean(groups.entries[k])).entries ::
      a in groups.entries && |groups.entries[a]| > 0 && means.Update(k, Mean(groups.entries[k])).entries[a] == Mean(groups.entries[a])
  {
    means.UpdateValid(k, Mean(groups.entries[k]));
  }

  /** Taking the means of distinct keys keeps them in their order and gives
      each the mean of its group. */
  lemma {:induction false} MeansOfMeans(groups: Dict<real, seq<real>>, keys: seq<real>)
    requires Distinct(keys)
    requires forall i | 0 <= i < |keys| :: keys[i] in groups.entries
    requires forall a | a in groups.entries :: |groups.entries[a]| > 0
    ensures MeansOf(groups, keys).Valid()
    ensures MeansOf(groups, keys).keys == keys
    ensures forall a | a in MeansOf(groups, keys).entries :: a in groups.entries && |groups.entries[a]| > 0 && MeansOf(groups, keys).entries[a] == Mean(groups.entries[a])
  {
    if keys != [] {
      var init, k := keys[..|keys| - 1], keys[|keys| - 1];
      assert keys == init + [k];
      MeansOfMeans(groups, init);
      MeansStep(MeansOf(groups, init), groups, init, k);
    }
  }

  /** The last loop of the salary pass: every group's list is replaced by the
      mean of its salaries, keys and their order unchanged. */
  method AverageSalaries(groups: Dict<real, seq<real>>) returns (means: Dict<real, real>)
    requires groups.Valid()
    requires forall a | a in groups.entries :: |groups.entries[a]| > 0
    ensures means == MeansOf(groups, groups.keys)
    ensures means.Valid()
    ensures means.keys == groups.keys
    ensures forall a | a in means.entries :: a in groups.entries && means.entries[a] == Mean(groups.entries[a])
  {
    means := EmptyDict();
    for i := 0 to |groups.keys|
      invariant means == MeansOf(groups, groups.keys[..i])
    {
      var k := groups.keys[i];
      assert groups.keys[..i + 1][..i] == groups.keys[..i];
      means := means.Update(k, Mean(groups.entries[k]));
    }
    assert groups.keys[..|groups.keys|] == groups.keys;
    MeansOfMeans(groups, groups.keys);
  }

  /** Every group the grouping pass builds has at least one salary, so the
      division in the last loop is never by zero. */
  lemma GroupsNonEmpty(players: seq<BaseballStatRecord>, a: real)
    requires a in FirstSeen(Averages(players))
    ensures |SalariesWithAverage(players, a)| > 0
  {
    OccurrencesZero(Averages(players), a);
  }

  /** Three stocks listed in US, US and JP give the counts US: 2 and JP: 1, in
      that order. */
  lemma CountryCountExample(us1: StockStatRecord, us2: StockStatRecord, jp: StockStatRecord)
    requires us1.exchangeCountry == "US" && us2.exchangeCountry == "US" && jp.exchangeCountry == "JP"
    ensures CountFold(Countries([us1, us2, jp])) == Dict(["US", "JP"], map["US" := 2, "JP" := 1])
  {
    assert Countries([us1, us2, jp]) == ["US", "US", "JP"] by {
      assert [us1, us2, jp][..2] == [us1, us2] && [us1, us2][..1] == [us1] && [us1][..0] == [];
      assert Countries([us1]) == ["US"];
      assert Countries([us1, us2]) == ["US", "US"];
    }
    var cs: seq<string> := ["US", "US", "JP"];
    assert cs[..2] == ["US", "US"] && ["US", "US"][..1] == ["US"] && ["US"][..0] == [];
    var none: seq<string> := [];
    assert none + ["US"] == ["US"] && ["US"] + ["JP"] == ["US", "JP"];
    assert "US" != "JP" by { assert "US"[0] != "JP"[0]; }
    assert CountFold(["US"]) == Dict(["US"], map["US" := 1]);
    assert map["US" := 1]["US" := 2] == map["US" := 2];
    assert CountFold(["US", "US"]) == Dict(["US"], map["US" := 2]);
  }

  /** Salaries 100 and 200 at average 0.300 and 300 at 0.250 group as
      0.300: [100, 200] and 0.250: [300], in that order. */
  lemma SalaryGroupsExample(a: BaseballStatRecord, b: BaseballStatRecord, c: BaseballStatRecord)
    requires a.avg == 0.3 && a.salary == 100.0
    requires b.avg == 0.3 && b.salary == 200.0
    requires c.avg == 0.25 && c.salary == 300.0
    ensures GroupFold([a, b, c]) == Dict([0.3, 0.25], map[0.3 := [100.0, 200.0], 0.25 := [300.0]])
  {
    assert [a, b, c][..2] == [a, b] && [a, b][..1] == [a] && [a][..0] == [];
    var none: seq<real> := [];
    assert none + [100.0] == [100.0] && none + [0.3] == [0.3] && none + [300.0] == [300.0];
    assert GroupFold([a]) == Dict([0.3], map[0.3 := [100.0]]);
    assert [100.0] + [200.0] == [100.0, 200.0] && [0.3] + [0.25] == [0.3, 0.25];
    assert map[0.3 := [100.0]][0.3 := [100.0, 200.0]] == map[0.3 := [100.0, 200.0]];
    assert GroupFold([a, b]) == Dict([0.3], map[0.3 := [100.0, 200.0]]);
  }

  /** Those groups have the means 150 and 300, in the same order. */
  lemma SalaryMeanExample()
    ensures MeansOf(Dict([0.3, 0.25], map[0.3 := [100.0, 200.0], 0.25 := [300.0]]), [0.3, 0.25])
         == Dict([0.3, 0.25], map[0.3 := 150.0, 0.25 := 300.0])
  {
    var high: seq<real> := [100.0, 200.0];
    assert high[..1] == [100.0] && [100.0][..0] == [];
    assert Sum(high) == 300.0;
    assert [300.0][..0] == [];
    assert Sum([300.0]) == 300.0;
    assert [0.3, 0.25][..1] == [0.3] && [0.3][..0] == [];
  }
}
