/**
 * `calculate_seasonal_stats` and the grouping around it: the records are
 * partitioned by season, and each group gets the mean and the sample
 * standard deviation of its temperatures (here, the sample variance). The
 * per-group computations are independent, so the parallel fan-out is a
 * sequential map over the groups, in the ascending key order in which
 * `groupby` produces them.
 */
module Seasonal {
  import opened Wrappers
  import opened Stats
  import opened Ordering
  import opened Records

  /** One season's statistics; `variance` is undefined for a one-record group. */
  datatype SeasonStats = SeasonStats(season: string, mean: real, variance: Option<real>)

  /** The season column of the records, in row order: what `groupby` and `unique()` read. */
  function Seasons(data: seq<Record>): (s: seq<string>)
    ensures |s| == |data|
    ensures forall i :: 0 <= i < |data| ==> s[i] == data[i].season
  {
    seq(|data|, i requires 0 <= i < |data| => data[i].season)
  }

  /** How many of the records lie in season `key`. */
  function GroupSize(data: seq<Record>, key: string): (n: nat)
  {
    if data == [] then 0 else (if data[0].season == key then 1 else 0) + GroupSize(data[1..], key)
  }

  /**
   * The records of season `key`, in their order: the group `groupby` forms
   * for `key`. It holds every record of that season as often as the input
   * does and no other record.
   */
  function GroupRecords(data: seq<Record>, key: string): (g: seq<Record>)
    ensures forall k :: 0 <= k < |g| ==> g[k].season == key
    ensures forall x :: multiset(g)[x] == if x.season == key then multiset(data)[x] else 0
    ensures IsSubsequence(g, data)
    ensures |g| == GroupSize(data, key)
  {
    if data == [] then []
    else
      var rest := GroupRecords(data[1..], key);
      assert data == [data[0]] + data[1..];
      if data[0].season == key then [data[0]] + rest else rest
  }

  /** A season's group is non-empty exactly when the season occurs. */
  lemma {:induction false} GroupSizePositive(data: seq<Record>, key: string)
    ensures GroupSize(data, key) > 0 <==> key in Seasons(data)
  {
    if data != [] {
      GroupSizePositive(data[1..], key);
      assert Seasons(data) == [data[0].season] + Seasons(data[1..]);
    }
  }

  /** The temperatures of the records of season `key`, in their order. */
  function GroupTemperatures(data: seq<Record>, key: string): (g: seq<real>)
    ensures |g| == GroupSize(data, key)
    ensures |g| > 0 <==> key in Seasons(data)
    ensures forall k :: 0 <= k < |g| ==> g[k] == GroupRecords(data, key)[k].temperature
  {
    GroupSizePositive(data, key);
    Temperatures(GroupRecords(data, key))
  }

  /** The statistics of the records of season `key`, labelled with `key`. */
  function GroupStats(data: seq<Record>, key: string): (st: SeasonStats)
    requires key in Seasons(data)
    ensures st.season == key
    ensures var g := GroupTemperatures(data, key);
            |g| > 0 && MinOf(g) <= st.mean <= MaxOf(g)
    ensures st.variance.None? <==> GroupSize(data, key) == 1
    ensures st.variance.Some? ==> st.variance.value >= 0.0
  {
    var g := GroupTemperatures(data, key);
    MeanWithinRange(g);
    SeasonStats(key, Mean(g), SampleVariance(g))
  }

  /**
   * The labels of a list of statistics, in order. It projects the statistics
   * entries as `Seasons` projects the records; the two are different types,
   * so each has its own projection.
   */
  function Labels(stats: seq<SeasonStats>): (l: seq<string>)
    ensures |l| == |stats|
    ensures forall i :: 0 <= i < |stats| ==> l[i] == stats[i].season
  {
    seq(|stats|, i requires 0 <= i < |stats| => stats[i].season)
  }

  /**
   * The seasonal statistics, one entry per distinct season of the input, in
   * ascending season order; each entry is labelled with its own group's key.
   */
  function SeasonalStats(data: seq<Record>): (r: seq<SeasonStats>)
    ensures Labels(r) == SortedKeys(Seasons(data))
    ensures Elements(Labels(r)) == Elements(Seasons(data))
    ensures StrictlySorted(Labels(r))
    ensures forall i :: 0 <= i < |r| ==> r[i].season in Seasons(data) && r[i] == GroupStats(data, r[i].season)
  {
    var keys := SortedKeys(Seasons(data));
    assert forall i :: 0 <= i < |keys| ==> keys[i] in Seasons(data) by {
      forall i | 0 <= i < |keys| ensures keys[i] in Seasons(data) {
        assert keys[i] in Elements(keys);
      }
    }
    var r := seq(|keys|, i requires 0 <= i < |keys| => GroupStats(data, keys[i]));
    assert Labels(r) == keys;
    r
  }

  /** Each season appears in exactly one entry. */
  lemma SeasonalStatsOneEntryEach(data: seq<Record>, key: string)
    ensures key in Seasons(data) <==> exists i :: 0 <= i < |SeasonalStats(data)| && SeasonalStats(data)[i].season == key
    ensures forall i, j :: 0 <= i < j < |SeasonalStats(data)| ==> SeasonalStats(data)[i].season != SeasonalStats(data)[j].season
  {
    var r := SeasonalStats(data);
    StrictlySortedHasNoDuplicates(Labels(r));
    if key in Seasons(data) {
      assert key in Elements(Seasons(data));
      assert key in Elements(Labels(r));
      var i :| 0 <= i < |r| && Labels(r)[i] == key;
    }
  }

  /** A frame with at least one record has at least one season group. */
  lemma SeasonalStatsNonEmpty(data: seq<Record>)
    requires data != []
    ensures |SeasonalStats(data)| > 0
  {
    assert Seasons(data)[0] in Elements(Seasons(data));
  }

  /** Each group's mean lies between the group's lowest and highest temperature. */
  lemma SeasonMeanWithinRange(data: seq<Record>, i: nat)
    requires i < |SeasonalStats(data)|
    ensures var g := GroupTemperatures(data, SeasonalStats(data)[i].season);
            |g| > 0 && MinOf(g) <= SeasonalStats(data)[i].mean <= MaxOf(g)
  {
    var st := SeasonalStats(data)[i];
    MeanWithinRange(GroupTemperatures(data, st.season));
  }

  /** A group's spread is undefined exactly when the group has a single record. */
  lemma SeasonVarianceDefinedness(data: seq<Record>, i: nat)
    requires i < |SeasonalStats(data)|
    ensures SeasonalStats(data)[i].variance.None? <==> |GroupTemperatures(data, SeasonalStats(data)[i].season)| == 1
  {
  }

  /** The sizes of the groups named by `keys`, added up. */
  function TotalSize(data: seq<Record>, keys: seq<string>): (n: nat)
  {
    if keys == [] then 0 else GroupSize(data, keys[0]) + TotalSize(data, keys[1..])
  }

  /** Exactly one key of a repetition-free list equals a season in it. */
  lemma {:induction false} TotalSizeOfOne(r: Record, keys: seq<string>)
    requires NoDuplicates(keys)
    ensures TotalSize([r], keys) == if r.season in keys then 1 else 0
  {
    if keys != [] {
      assert [r][1..] == [];
      assert GroupSize([r], keys[0]) == if r.season == keys[0] then 1 else 0;
      TotalSizeOfOne(r, keys[1..]);
      assert r.season == keys[0] ==> r.season !in keys[1..];
      assert r.season in keys <==> r.season == keys[0] || r.season in keys[1..];
    }
  }

  lemma {:induction false} TotalSizeSplit(d: Record, data: seq<Record>, keys: seq<string>)
    ensures TotalSize([d] + data, keys) == TotalSize([d], keys) + TotalSize(data, keys)
  {
    if keys != [] {
      TotalSizeSplit(d, data, keys[1..]);
      assert ([d] + data)[1..] == data && [d][1..] == [];
      assert GroupSize([d] + data, keys[0]) == GroupSize([d], keys[0]) + GroupSize(data, keys[0]);
    }
  }

  /** Groups over a repetition-free list holding every season cover each record once. */
  lemma {:induction false} TotalSizeCovers(data: seq<Record>, keys: seq<string>)
    requires NoDuplicates(keys)
    requires forall i :: 0 <= i < |data| ==> data[i].season in keys
    ensures TotalSize(data, keys) == |data|
  {
    if data == [] {
      EmptyTotalSize(keys);
    } else {
      assert data == [data[0]] + data[1..];
      TotalSizeSplit(data[0], data[1..], keys);
      TotalSizeOfOne(data[0], keys);
      TotalSizeCovers(data[1..], keys);
    }
  }

  lemma {:induction false} EmptyTotalSize(keys: seq<string>)
    ensures TotalSize([], keys) == 0
  {
    if keys != [] {
      EmptyTotalSize(keys[1..]);
    }
  }

  /** The season groups partition the data: their sizes add up to the number of records. */
  lemma GroupsPartitionData(data: seq<Record>)
    ensures TotalSize(data, Labels(SeasonalStats(data))) == |data|
  {
    var labels := Labels(SeasonalStats(data));
    StrictlySortedHasNoDuplicates(labels);
    forall i | 0 <= i < |data| ensures data[i].season in labels {
      assert Seasons(data)[i] == data[i].season;
      assert data[i].season in Elements(Seasons(data));
      assert data[i].season in Elements(labels);
    }
    TotalSizeCovers(data, labels);
  }

  // As written, the source pairs the groups, visited in ascending key
  // order, with labels taken from `unique()`, which lists the seasons in
  // order of first appearance. The two orders differ whenever the seasons do
  // not first appear in ascending order, and a group's statistics then carry
  // another season's label.

  /** Puts the `i`-th label on the `i`-th entry, keeping its statistics. */
  function Relabel(stats: seq<SeasonStats>, labels: seq<string>): (r: seq<SeasonStats>)
    requires |labels| == |stats|
    ensures |r| == |stats|
    ensures forall i :: 0 <= i < |r| ==>
              r[i].season == labels[i] && r[i].mean == stats[i].mean && r[i].variance == stats[i].variance
  {
    seq(|stats|, i requires 0 <= i < |stats| => stats[i].(season := labels[i]))
  }

  /** The statistics as the source labels them: the k-th group's under the k-th first-appearing season. */
  function SeasonalStatsAsWritten(data: seq<Record>): (r: seq<SeasonStats>)
    ensures |r| == |SeasonalStats(data)|
    ensures Labels(r) == FirstAppearance(Seasons(data))
    ensures forall i :: 0 <= i < |r| ==>
              r[i].mean == SeasonalStats(data)[i].mean && r[i].variance == SeasonalStats(data)[i].variance
  {
    var seasons := Seasons(data);
    KeyCountsAgree(seasons);
    Relabel(SeasonalStats(data), FirstAppearance(seasons))
  }

  lemma ExampleSortedKeys()
    ensures SortedKeys(["winter", "summer"]) == ["summer", "winter"]
  {
    var s := ["winter", "summer"];
    assert s[1..] == ["summer"] && s[1..][1..] == [];
    assert SortedKeys(s[1..]) == ["summer"];
    assert !LexLess("winter", "summer");
  }

  lemma ExampleFirstAppearance()
    ensures FirstAppearance(["winter", "summer"]) == ["winter", "summer"]
  {
    var s := ["winter", "summer"];
    assert s[..1] == ["winter"] && s[..1][..0] == [];
  }

  /** A winter reading followed by a summer one. */
  const WinterThenSummer := [Record("Moscow", 0, -10.0, "winter", []), Record("Moscow", 1, 20.0, "summer", [])]

  lemma ExampleGroups()
    ensures Seasons(WinterThenSummer) == ["winter", "summer"]
    ensures GroupTemperatures(WinterThenSummer, "summer") == [20.0]
    ensures GroupTemperatures(WinterThenSummer, "winter") == [-10.0]
  {
    var data := WinterThenSummer;
    assert data[1..][1..] == [];
    assert Seasons(data)[0] == "winter" && Seasons(data)[1] == "summer";
  }

  /** The `i`-th entry as written: the `i`-th first-appearing label on the `i`-th group in key order. */
  lemma AsWrittenEntry(data: seq<Record>, i: nat)
    requires i < |SeasonalStats(data)|
    ensures i < |SortedKeys(Seasons(data))| && i < |FirstAppearance(Seasons(data))|
    ensures SortedKeys(Seasons(data))[i] in Seasons(data)
    ensures SeasonalStatsAsWritten(data)[i].season == FirstAppearance(Seasons(data))[i]
    ensures SeasonalStatsAsWritten(data)[i].mean == GroupStats(data, SortedKeys(Seasons(data))[i]).mean
  {
    var groups := SeasonalStats(data);
    var written := SeasonalStatsAsWritten(data);
    assert Labels(groups)[i] == groups[i].season;
    assert Labels(written)[i] == written[i].season;
  }

  lemma ExampleFirstLabel()
    ensures |SeasonalStatsAsWritten(WinterThenSummer)| == 2
    ensures SeasonalStatsAsWritten(WinterThenSummer)[0].season == "winter"
  {
    ExampleGroups();
    ExampleSortedKeys();
    ExampleFirstAppearance();
    AsWrittenEntry(WinterThenSummer, 0);
  }

  lemma ExampleFirstMean()
    ensures |SeasonalStatsAsWritten(WinterThenSummer)| == 2
    ensures SeasonalStatsAsWritten(WinterThenSummer)[0].mean == 20.0
  {
    var data := WinterThenSummer;
    ExampleGroups();
    ExampleSortedKeys();
    AsWrittenEntry(data, 0);
    assert SortedKeys(Seasons(data))[0] == "summer";
    var g := GroupTemperatures(data, "summer");
    assert Mean(g) == 20.0 by {
      assert g == [20.0] && g[1..] == [];
    }
    assert GroupStats(data, "summer").mean == Mean(g);
  }

  lemma ExampleWinterMean()
    ensures "winter" in Seasons(WinterThenSummer)
    ensures GroupStats(WinterThenSummer, "winter").mean == -10.0
  {
    ExampleGroups();
    assert [-10.0][1..] == [];
    assert Mean([-10.0]) == -10.0;
  }

  /** Winter first, then summer: the source reports summer's mean under the label "winter". */
  lemma AsWrittenMislabelsSeasons()
    ensures |SeasonalStatsAsWritten(WinterThenSummer)| == 2 && "winter" in Seasons(WinterThenSummer)
    ensures SeasonalStatsAsWritten(WinterThenSummer)[0].season == "winter"
    ensures SeasonalStatsAsWritten(WinterThenSummer)[0].mean == 20.0
    ensures SeasonalStatsAsWritten(WinterThenSummer)[0].mean != GroupStats(WinterThenSummer, "winter").mean
  {
    ExampleFirstLabel();
    ExampleFirstMean();
    ExampleWinterMean();
  }
}
