/** The category-tree matcher: selects stored sites by the segments of their
    DMOZ category paths (create.py, `category_chunk`). The document store is
    replaced by the sequence of records a scan would return. */
module Dmoz {
  import opened Wrappers
  import opened Text

  /** The record's `alexa.DMOZ.SITE.CATS.CAT` field. Each mapping in it is
      represented by its `@ID` entry, `None` when that key is missing. */
  datatype CatContainer =
    | Absent                        // the field does not exist: the store query skips the record
    | EmptyMap                      // the field is `{}`
    | Single(id: Option<string>)    // one mapping
    | Many(ids: seq<Option<string>>) // a list of mappings

  /** A record of the `domains` collection, projected to the fields the
      matcher reads. The domain is stored with `#` in place of `.`. */
  datatype Site = Site(domain: Option<string>, cats: CatContainer)

  /** The `@ID` of every mapping of a list, in order; `None` (a `KeyError`)
      when one of them lacks it. */
  function AllIds(ids: seq<Option<string>>): (r: Option<seq<string>>)
    ensures r.Some? <==> forall i :: 0 <= i < |ids| ==> ids[i].Some?
    ensures r.Some? ==> |r.value| == |ids| && forall i :: 0 <= i < |ids| ==> r.value[i] == ids[i].value
  {
    if |ids| == 0 then Some([])
    else match (ids[0], AllIds(ids[1..]))
      case (Some(id), Some(rest)) => Some([id] + rest)
      case _ => None
  }

  /** The category paths of a record, normalised to a list; `None` when the
      record is not returned by the store query or reading it raises `KeyError`. */
  function Paths(c: CatContainer): (r: Option<seq<string>>)
    ensures c.Absent? ==> r.None?
    ensures c.EmptyMap? ==> r == Some([])
    ensures c.Single? ==> (r.Some? <==> c.id.Some?)
    ensures c.Single? && c.id.Some? ==> r == Some([c.id.value])
    ensures c.Many? ==> (r.Some? <==> forall i :: 0 <= i < |c.ids| ==> c.ids[i].Some?)
    ensures c.Many? && r.Some? ==> |r.value| == |c.ids| && forall i :: 0 <= i < |c.ids| ==> r.value[i] == c.ids[i].value
  {
    match c
    case Absent => None
    case EmptyMap => Some([])
    case Single(id) => if id.Some? then Some([id.value]) else None
    case Many(ids) => AllIds(ids)
  }

  /** The `/`-delimited segments of a category path. */
  function Segments(path: string): seq<string>
  {
    Split(path, '/')
  }

  /** Some segment of the path is one of the tokens. */
  predicate Touches(path: string, tokens: set<string>)
  {
    exists k :: 0 <= k < |Segments(path)| && Segments(path)[k] in tokens
  }

  /** Some path of the record has a segment among the exclusion tokens. */
  predicate Excluded(paths: seq<string>, negative: set<string>)
  {
    exists i :: 0 <= i < |paths| && Touches(paths[i], negative)
  }

  /** The number of paths with a segment among the wanted tokens. */
  function MatchCount(paths: seq<string>, wanted: set<string>): nat
  {
    if |paths| == 0 then 0
    else MatchCount(paths[..|paths| - 1], wanted) + (if Touches(paths[|paths| - 1], wanted) then 1 else 0)
  }

  /** The stored domain with the `#` placeholders turned back into dots. */
  function Clean(raw: string): (d: string)
    ensures '#' !in d && |d| == |raw|
    ensures forall i :: 0 <= i < |raw| && raw[i] != '#' ==> d[i] == raw[i]
    ensures forall i :: 0 <= i < |raw| && raw[i] == '#' ==> d[i] == '.'
  {
    Replace(raw, '#', '.')
  }

  /** What one record adds to the matcher's output: its cleaned domain once
      per matching path, or nothing when the record is skipped, excluded or
      has no domain. */
  function Contribution(site: Site, wanted: set<string>, negative: set<string>): (r: seq<string>)
    ensures |r| > 0 ==> site.domain.Some? && Paths(site.cats).Some? && !Excluded(Paths(site.cats).value, negative)
    ensures Paths(site.cats).Some? ==> |r| <= |Paths(site.cats).value|
  {
    match Paths(site.cats)
    case None => []
    case Some(paths) =>
      MatchCountBounds(paths, wanted);
      if Excluded(paths, negative) || site.domain.None? then []
      else seq(MatchCount(paths, wanted), _ => Clean(site.domain.value))
  }

  /** The matcher's output for a scan of `sites`, record by record. */
  function Chunk(sites: seq<Site>, wanted: set<string>, negative: set<string>): (r: seq<string>)
  {
    if |sites| == 0 then []
    else Chunk(sites[..|sites| - 1], wanted, negative) + Contribution(sites[|sites| - 1], wanted, negative)
  }

  /** Python's `negative.intersection(set(path.split('/')))` is non-empty
      exactly when the path touches `negative`. */
  lemma IntersectsIffTouches(path: string, tokens: set<string>)
    ensures tokens * (set s | s in Segments(path)) != {} <==> Touches(path, tokens)
  {
    var segs := set s | s in Segments(path);
    if Touches(path, tokens) {
      var k :| 0 <= k < |Segments(path)| && Segments(path)[k] in tokens;
      assert Segments(path)[k] in tokens * segs;
    }
    if tokens * segs != {} {
      var s :| s in tokens * segs;
      var k :| 0 <= k < |Segments(path)| && Segments(path)[k] == s;
    }
  }

  /** `category_chunk(c, chunks, negative)`: scans the selected records in
      order and concatenates what each contributes. A missing key skips only
      the record at hand. An empty `negative` stands for the default `False`. */
  method CategoryChunk(sites: seq<Site>, chunks: seq<string>, negative: set<string>) returns (domains: seq<string>)
    ensures domains == Chunk(sites, (set c | c in chunks), negative)
  {
    var wanted := set c | c in chunks;
    domains := [];
    var i := 0;
    while i < |sites|
      invariant 0 <= i <= |sites|
      invariant domains == Chunk(sites[..i], wanted, negative)
    {
      var emitted := MatchRecord(sites[i], wanted, negative);
      domains := domains + emitted;
      assert sites[..i + 1][..i] == sites[..i];
      i := i + 1;
    }
    assert sites[..i] == sites;
  }

  /** The body of the scan for one record: every path is split on `/`; a
      record with a path touching `negative` is dropped; otherwise the domain
      is emitted once for each path with a segment in `wanted`, the `break`
      leaving only the segment loop. Reading the missing domain of a matching
      record raises `KeyError` before anything of it is emitted. */
  method MatchRecord(site: Site, wanted: set<string>, negative: set<string>) returns (emitted: seq<string>)
    ensures emitted == Contribution(site, wanted, negative)
  {
    emitted := [];
    var paths := Paths(site.cats);
    if paths.None? {
      return;
    }
    var cats := paths.value;
    var negativeFlag := false;
    if |negative| > 0 {
      negativeFlag := NegativeFlag(cats, negative);
    }
    if negativeFlag {
      return;
    }
    var j := 0;
    while j < |cats|
      invariant 0 <= j <= |cats|
      invariant site.domain.None? ==> MatchCount(cats[..j], wanted) == 0 && emitted == []
      invariant site.domain.Some? ==> emitted == seq(MatchCount(cats[..j], wanted), _ => Clean(site.domain.value))
    {
      var found := SegmentMatch(cats[j], wanted);
      if found {
        if site.domain.None? {
          return;
        }
        emitted := emitted + [Clean(site.domain.value)];
      }
      assert cats[..j + 1][..j] == cats[..j];
      j := j + 1;
    }
    assert cats[..j] == cats;
  }

  /** The exclusion pass: whether some path has a segment in `negative`. */
  method NegativeFlag(cats: seq<string>, negative: set<string>) returns (flag: bool)
    ensures flag <==> Excluded(cats, negative)
  {
    flag := false;
    var j := 0;
    while j < |cats|
      invariant 0 <= j <= |cats|
      invariant flag <==> Excluded(cats[..j], negative)
    {
      var segs := set s | s in Segments(cats[j]);
      if negative * segs != {} {
        flag := true;
      }
      IntersectsIffTouches(cats[j], negative);
      assert cats[..j + 1][..j] == cats[..j] && cats[..j + 1][j] == cats[j];
      j := j + 1;
    }
    assert cats[..j] == cats;
  }

  /** The segment loop for one path, stopping at the first segment in `wanted`. */
  method SegmentMatch(path: string, wanted: set<string>) returns (found: bool)
    ensures found <==> Touches(path, wanted)
  {
    var segs := Segments(path);
    found := false;
    var k := 0;
    while k < |segs|
      invariant 0 <= k <= |segs|
      invariant forall m :: 0 <= m < k ==> segs[m] !in wanted
    {
      if segs[k] in wanted {
        found := true;
        break;
      }
      k := k + 1;
    }
  }

  /** `site` makes the matcher emit `d`: it is selected and readable, not
      excluded, has a domain that cleans to `d`, and one of its paths has a
      segment in `wanted`. */
  predicate Emits(site: Site, wanted: set<string>, negative: set<string>, d: string)
  {
    && site.domain.Some?
    && Clean(site.domain.value) == d
    && Paths(site.cats).Some?
    && !Excluded(Paths(site.cats).value, negative)
    && exists i :: 0 <= i < |Paths(site.cats).value| && Touches(Paths(site.cats).value[i], wanted)
  }

  /** A record is emitted at most once per path, and at least once exactly
      when one of its paths matches. */
  lemma {:induction false} MatchCountBounds(paths: seq<string>, wanted: set<string>)
    ensures MatchCount(paths, wanted) <= |paths|
    ensures MatchCount(paths, wanted) > 0 <==> exists i :: 0 <= i < |paths| && Touches(paths[i], wanted)
    ensures (forall i :: 0 <= i < |paths| ==> Touches(paths[i], wanted)) ==> MatchCount(paths, wanted) == |paths|
  {
    if |paths| > 0 {
      var init := paths[..|paths| - 1];
      MatchCountBounds(init, wanted);
      if exists i :: 0 <= i < |init| && Touches(init[i], wanted) {
        var i :| 0 <= i < |init| && Touches(init[i], wanted);
        assert paths[i] == init[i];
      }
      if exists i :: 0 <= i < |paths| && Touches(paths[i], wanted) {
        var i :| 0 <= i < |paths| && Touches(paths[i], wanted);
        if i < |init| { assert init[i] == paths[i]; }
      }
      if forall i :: 0 <= i < |paths| ==> Touches(paths[i], wanted) {
        assert forall i :: 0 <= i < |init| ==> init[i] == paths[i];
      }
    }
  }

  /** The count of matching paths adds up over a split of the path list. */
  lemma {:induction false} MatchCountAppend(a: seq<string>, b: seq<string>, wanted: set<string>)
    ensures MatchCount(a + b, wanted) == MatchCount(a, wanted) + MatchCount(b, wanted)
    decreases |b|
  {
    if |b| == 0 {
      assert a + b == a;
    } else {
      MatchCountAppend(a, b[..|b| - 1], wanted);
      assert (a + b)[..|a + b| - 1] == a + b[..|b| - 1];
    }
  }

  /** The scan is record by record: the output for two consecutive parts of
      the store is the concatenation of their outputs. */
  lemma {:induction false} ChunkAppend(a: seq<Site>, b: seq<Site>, wanted: set<string>, negative: set<string>)
    ensures Chunk(a + b, wanted, negative) == Chunk(a, wanted, negative) + Chunk(b, wanted, negative)
    decreases |b|
  {
    if |b| == 0 {
      assert a + b == a;
    } else {
      var init := b[..|b| - 1];
      var last := Contribution(b[|b| - 1], wanted, negative);
      ChunkAppend(a, init, wanted, negative);
      assert (a + b)[..|a + b| - 1] == a + init;
      assert (a + b)[|a + b| - 1] == b[|b| - 1];
      AppendAssociative(Chunk(a, wanted, negative), Chunk(init, wanted, negative), last);
    }
  }

  /** A record whose category field is absent or raises `KeyError` is skipped
      without disturbing what the records before and after it contribute. */
  lemma SkipMalformed(before: seq<Site>, bad: Site, after: seq<Site>, wanted: set<string>, negative: set<string>)
    requires Paths(bad.cats).None?
    ensures Chunk(before + [bad] + after, wanted, negative) == Chunk(before, wanted, negative) + Chunk(after, wanted, negative)
  {
    ChunkAppend(before + [bad], after, wanted, negative);
    ChunkSnoc(before, bad, wanted, negative);
    assert Chunk(before, wanted, negative) + [] == Chunk(before, wanted, negative);
  }

  /** One more record adds exactly its own contribution at the end. */
  lemma ChunkSnoc(sites: seq<Site>, site: Site, wanted: set<string>, negative: set<string>)
    ensures Chunk(sites + [site], wanted, negative) == Chunk(sites, wanted, negative) + Contribution(site, wanted, negative)
  {
    assert (sites + [site])[..|sites|] == sites;
  }

  /** Membership in the matcher's output: `d` is emitted exactly when some
      record emits it. */
  lemma {:induction false} ChunkMember(sites: seq<Site>, wanted: set<string>, negative: set<string>, d: string)
    ensures d in Chunk(sites, wanted, negative) <==> exists i :: 0 <= i < |sites| && Emits(sites[i], wanted, negative, d)
  {
    if |sites| > 0 {
      var n := |sites| - 1;
      var init := sites[..n];
      ChunkMember(init, wanted, negative, d);
      ContributionMember(sites[n], wanted, negative, d);
      assert Chunk(sites, wanted, negative) == Chunk(init, wanted, negative) + Contribution(sites[n], wanted, negative);
      if d in Chunk(sites, wanted, negative) {
        if d in Chunk(init, wanted, negative) {
          var i :| 0 <= i < |init| && Emits(init[i], wanted, negative, d);
          assert sites[i] == init[i];
        } else {
          assert Emits(sites[n], wanted, negative, d);
        }
      } else {
        forall i | 0 <= i < |sites|
          ensures !Emits(sites[i], wanted, negative, d)
        {
          if i < n {
            assert sites[i] == init[i];
          }
        }
      }
    }
  }

  lemma ContributionMember(site: Site, wanted: set<string>, negative: set<string>, d: string)
    ensures d in Contribution(site, wanted, negative) <==> Emits(site, wanted, negative, d)
  {
    if Paths(site.cats).Some? {
      MatchCountBounds(Paths(site.cats).value, wanted);
      if Emits(site, wanted, negative, d) {
        assert Contribution(site, wanted, negative)[0] == d;
      }
    }
  }

  /** No string the matcher emits contains `#`: every one is a cleaned domain. */
  lemma {:induction false} ChunkClean(sites: seq<Site>, wanted: set<string>, negative: set<string>)
    ensures forall d :: d in Chunk(sites, wanted, negative) ==> '#' !in d
  {
    forall d | d in Chunk(sites, wanted, negative)
      ensures '#' !in d
    {
      ChunkMember(sites, wanted, negative, d);
    }
  }

  /** Exclusion is record-wide: when every record whose domain cleans to `d`
      has some path touching `negative`, `d` is never emitted, however many
      of its other paths match. */
  lemma {:induction false} ExclusionWins(sites: seq<Site>, wanted: set<string>, negative: set<string>, d: string)
    requires forall i :: 0 <= i < |sites| && sites[i].domain.Some? && Clean(sites[i].domain.value) == d && Paths(sites[i].cats).Some?
               ==> Excluded(Paths(sites[i].cats).value, negative)
    ensures d !in Chunk(sites, wanted, negative)
  {
    ChunkMember(sites, wanted, negative, d);
  }

  /** With no exclusion tokens (Python's default `negative=False`, which
      makes `if negative:` skip the exclusion pass) a domain is emitted
      exactly when a readable record with that cleaned domain has a matching
      path: nothing is ever excluded. */
  lemma NoExclusionWithoutTokens(sites: seq<Site>, wanted: set<string>, d: string)
    ensures d in Chunk(sites, wanted, {}) <==>
              exists i :: 0 <= i < |sites| && sites[i].domain.Some? && Clean(sites[i].domain.value) == d
                && Paths(sites[i].cats).Some?
                && exists k :: 0 <= k < |Paths(sites[i].cats).value| && Touches(Paths(sites[i].cats).value[k], wanted)
  {
    ChunkMember(sites, wanted, {}, d);
    forall i | 0 <= i < |sites| && Paths(sites[i].cats).Some?
      ensures !Excluded(Paths(sites[i].cats).value, {})
    {
    }
  }

  /** A record with two matching paths is emitted twice. */
  lemma TwoMatchingPaths(raw: string, p: string, q: string, wanted: set<string>)
    requires Touches(p, wanted) && Touches(q, wanted)
    ensures Chunk([Site(Some(raw), Many([Some(p), Some(q)]))], wanted, {}) == [Clean(raw), Clean(raw)]
  {
    var paths := [p, q];
    assert paths[..1] == [p] && paths[..1][..0] == [];
    assert MatchCount([p], wanted) == 1;
    assert MatchCount(paths, wanted) == 2;
    assert [Site(Some(raw), Many([Some(p), Some(q)]))][..0] == [];
  }

  /** A record filed under a single matching path is emitted once, cleaned. */
  lemma SingleMatchingPath(raw: string, p: string, wanted: set<string>)
    requires Touches(p, wanted)
    ensures Chunk([Site(Some(raw), Single(Some(p)))], wanted, {}) == [Clean(raw)]
  {
    assert [p][..0] == [];
    assert MatchCount([p], wanted) == 1;
    assert [Site(Some(raw), Single(Some(p)))][..0] == [];
  }

  lemma ThreeSegments(a: string, b: string, c: string)
    requires '/' !in a && '/' !in b && '/' !in c
    ensures Segments(a + "/" + b + "/" + c) == [a, b, c]
  {
    SplitPieces(c, '/');
    SplitAt(b, c, '/');
    SplitAt(a, b + ['/'] + c, '/');
    assert a + "/" + b + "/" + c == a + ['/'] + (b + ['/'] + c);
  }

  /** The record `{domain: "foo#bar#com"}` filed under `<top>/Adult/<leaf>`
      is found by the include token `Adult` as `foo.bar.com`. */
  lemma AdultExample(top: string, leaf: string)
    requires '/' !in top && '/' !in leaf
    ensures Chunk([Site(Some("foo#bar#com"), Single(Some(top + "/Adult/" + leaf)))], {"Adult"}, {}) == ["foo.bar.com"]
  {
    var p := top + "/Adult/" + leaf;
    assert p == top + "/" + "Adult" + "/" + leaf;
    ThreeSegments(top, "Adult", leaf);
    assert Segments(p)[1] == "Adult";
    SingleMatchingPath("foo#bar#com", p, {"Adult"});
    assert Clean("foo#bar#com") == "foo.bar.com";
  }
}
