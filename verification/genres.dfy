/** The per-genre aggregators of create.py (`get_adult_sites`,
    `get_gambling_sites`, `get_drugs_sites`, `get_alcohol_sites`): each
    unites some sources, removes known false positives and returns
    `sorted(list(domains))`. */
module Genres {
  import opened Wrappers
  import opened Text
  import opened Ordering
  import opened Dmoz
  import opened Sources

  const AdultTokens: set<string> := {"Adult"}
  /** The hand-classified table's category code for adult sites. */
  const AdultCode: string := "18"
  const GamblingTokens: set<string> := {"Poker", "Gambling", "Blackjack"}
  const DrugsTokens: set<string> := {"Drugs"}
  const DrugsFalsePositives: set<string> := {"fungi.com"}
  const AlcoholTokens: set<string> := {"Wine", "Beer", "Liquor"}
  /** A software category whose name collides with the alcohol tokens' paths. */
  const AlcoholExclusions: set<string> := {"DOS_and_Windows"}

  /** `sorted(list(set(xs) - drop))`: the distinct elements of `xs` that are
      not dropped, in increasing order. */
  function SortedSet(xs: seq<string>, drop: set<string>): (r: seq<string>)
    ensures StrictlySorted(r)
    ensures forall d :: d in r <==> d in xs && d !in drop
  {
    if |xs| == 0 then []
    else
      var last := xs[|xs| - 1];
      var sorted := SortedSet(xs[..|xs| - 1], drop);
      assert forall d :: d in xs <==> d in xs[..|xs| - 1] || d == last by {
        assert xs == xs[..|xs| - 1] + [last];
      }
      if last in drop then sorted else Insert(last, sorted)
  }

  /** The aggregate is THE sorted list of its set: any strictly sorted list
      with the same elements is equal to it. */
  lemma SortedSetUnique(xs: seq<string>, drop: set<string>, ys: seq<string>)
    requires StrictlySorted(ys)
    requires forall d :: d in ys <==> d in xs && d !in drop
    ensures ys == SortedSet(xs, drop)
  {
    SortedUnique(ys, SortedSet(xs, drop));
  }

  /** The record's raw domain ends in `xxx`. */
  predicate XxxSite(site: Site)
  {
    site.domain.Some? && EndsWith(site.domain.value, "xxx")
  }

  /** The top-level-domain scan of `get_adult_sites` over every stored
      record: the cleaned domain of each record whose raw domain ends in
      `xxx`. The scan is not guarded, so a record without a domain raises
      `KeyError` and aborts it. */
  function XxxSites(sites: seq<Site>): (r: Result<seq<string>, Error>)
    ensures r.Failure? <==> exists i :: 0 <= i < |sites| && sites[i].domain.None?
    ensures r.Success? ==> forall d :: d in r.value <==>
              exists i :: 0 <= i < |sites| && XxxSite(sites[i]) && Clean(sites[i].domain.value) == d
  {
    if |sites| == 0 then Success([])
    else
      var site := sites[0];
      var rest := XxxSites(sites[1..]);
      assert forall i :: 0 < i < |sites| ==> sites[i] == sites[1..][i - 1];
      assert forall i :: 0 <= i < |sites| - 1 ==> sites[1..][i] == sites[i + 1];
      if site.domain.None? then Failure(MissingDomain)
      else if rest.Failure? then rest
      else if EndsWith(site.domain.value, "xxx") then Success([Clean(site.domain.value)] + rest.value)
      else rest
  }

  /** `get_adult_sites()`: the `Adult` category matches, the table rows of
      code `18`, the `.xxx` scan and the comScore adult dump. Fails when the
      table has a row without a tab or a record has no domain. */
  function AdultSites(sites: seq<Site>, analysisLines: seq<string>, dumpLines: seq<string>): (r: Result<seq<string>, Error>)
    ensures r.Failure? <==> DomainAnalysis(analysisLines, AdultCode).Failure? || exists i :: 0 <= i < |sites| && sites[i].domain.None?
    ensures r.Success? ==> StrictlySorted(r.value)
    ensures r.Success? ==> forall d :: d in r.value <==>
              || (exists i :: 0 <= i < |sites| && Emits(sites[i], AdultTokens, {}, d))
              || (exists i :: 0 <= i < |analysisLines| && Listed(analysisLines[i], AdultCode, d))
              || (exists i :: 0 <= i < |sites| && XxxSite(sites[i]) && Clean(sites[i].domain.value) == d)
              || d in ReadList(dumpLines)
  {
    var analysis := DomainAnalysis(analysisLines, AdultCode);
    if analysis.Failure? then Failure(analysis.error)
    else
      var xxx := XxxSites(sites);
      if xxx.Failure? then Failure(xxx.error)
      else
        var db := Chunk(sites, AdultTokens, {});
        assert forall d :: d in db <==> exists i :: 0 <= i < |sites| && Emits(sites[i], AdultTokens, {}, d) by {
          forall d { ChunkMember(sites, AdultTokens, {}, d); }
        }
        Success(SortedSet(db + analysis.value + xxx.value + ReadList(dumpLines), {}))
  }

  /** `get_gambling_sites()`: the records filed under `Poker`, `Gambling` or `Blackjack`. */
  function GamblingSites(sites: seq<Site>): (r: seq<string>)
    ensures StrictlySorted(r)
    ensures forall d :: d in r <==> exists i :: 0 <= i < |sites| && Emits(sites[i], GamblingTokens, {}, d)
  {
    var db := Chunk(sites, GamblingTokens, {});
    assert forall d :: d in db <==> exists i :: 0 <= i < |sites| && Emits(sites[i], GamblingTokens, {}, d) by {
      forall d { ChunkMember(sites, GamblingTokens, {}, d); }
    }
    SortedSet(db, {})
  }

  /** `get_drugs_sites()`: the `Drugs` category matches and the suggestion
      list, less the known false positive `fungi.com`. */
  function DrugsSites(sites: seq<Site>, suggestionLines: seq<string>): (r: seq<string>)
    ensures StrictlySorted(r)
    ensures "fungi.com" !in r
    ensures forall d :: d in r <==>
              && d != "fungi.com"
              && ((exists i :: 0 <= i < |sites| && Emits(sites[i], DrugsTokens, {}, d)) || d in ReadList(suggestionLines))
  {
    var db := Chunk(sites, DrugsTokens, {});
    assert forall d :: d in db <==> exists i :: 0 <= i < |sites| && Emits(sites[i], DrugsTokens, {}, d) by {
      forall d { ChunkMember(sites, DrugsTokens, {}, d); }
    }
    SortedSet(db + ReadList(suggestionLines), DrugsFalsePositives)
  }

  /** `get_alcohol_sites()`: the records filed under `Wine`, `Beer` or
      `Liquor`, except records with any path through `DOS_and_Windows`. */
  function AlcoholSites(sites: seq<Site>): (r: seq<string>)
    ensures StrictlySorted(r)
    ensures forall d :: d in r <==> exists i :: 0 <= i < |sites| && Emits(sites[i], AlcoholTokens, AlcoholExclusions, d)
  {
    var db := Chunk(sites, AlcoholTokens, AlcoholExclusions);
    assert forall d :: d in db <==> exists i :: 0 <= i < |sites| && Emits(sites[i], AlcoholTokens, AlcoholExclusions, d) by {
      forall d { ChunkMember(sites, AlcoholTokens, AlcoholExclusions, d); }
    }
    SortedSet(db, {})
  }

  /** A wine shop that is also filed under `DOS_and_Windows` is left out of
      the alcohol list, although one of its paths matches. */
  lemma AlcoholExclusionExample(raw: string, wine: string, software: string)
    requires Touches(wine, AlcoholTokens) && Touches(software, AlcoholExclusions)
    ensures Clean(raw) !in AlcoholSites([Site(Some(raw), Many([Some(wine), Some(software)]))])
  {
    var site := Site(Some(raw), Many([Some(wine), Some(software)]));
    assert Paths(site.cats).value[1] == software;
    assert Excluded(Paths(site.cats).value, AlcoholExclusions);
  }
}
