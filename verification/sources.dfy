/** The file-based sources of the list builder (create.py): the
    hand-classified table, the Alexa top-sites list, the vendor (comScore)
    lists and the plain domain lists. Every file is given as the sequence of
    lines Python's file iteration yields, each with its trailing newline. */
module Sources {
  import opened Wrappers
  import opened Text

  /** What aborts a run: indexing a field that a line or a record lacks
      (Python's `IndexError` and the uncaught `KeyError`). */
  datatype Error = MissingField(line: string) | MissingDomain

  /** Appends two partial outputs; the first failure wins, as the first
      exception raised ends the Python loop. */
  function Concat(x: Result<seq<string>, Error>, y: Result<seq<string>, Error>): Result<seq<string>, Error>
  {
    if x.Failure? then x else if y.Failure? then y else Success(x.value + y.value)
  }

  lemma ConcatAssociative(x: Result<seq<string>, Error>, y: Result<seq<string>, Error>, z: Result<seq<string>, Error>)
    ensures Concat(Concat(x, y), z) == Concat(x, Concat(y, z))
  {
    if x.Success? && y.Success? && z.Success? {
      assert (x.value + y.value) + z.value == x.value + (y.value + z.value);
    }
  }

  // ---------------------------------------------------------------------
  // Hand-classified table (`check_domain_analysis`)
  // ---------------------------------------------------------------------

  /** A table row lists `d` under `code`: the row has a second tab-field
      containing `code` as a substring, and its first tab-field is `d`. */
  predicate Listed(line: string, code: string, d: string)
  {
    var fields := Split(line, '\t');
    |fields| >= 2 && Contains(fields[1], code) && fields[0] == d
  }

  /** One row of the table: its domain when the category field contains the
      code, nothing otherwise, and an `IndexError` for a row without a tab. */
  function AnalysisRow(line: string, code: string): (r: Result<seq<string>, Error>)
    ensures r.Failure? <==> '\t' !in line
    ensures r.Success? ==> |r.value| <= 1 && forall d :: d in r.value <==> Listed(line, code, d)
  {
    var fields := Split(line, '\t');
    SplitFields(line, '\t');
    if |fields| < 2 then Failure(MissingField(line))
    else if Contains(fields[1], code) then Success([fields[0]])
    else Success([])
  }

  /** `check_domain_analysis(code)` over the lines of the table: the first
      field of every row whose second field contains `code`, in file order. */
  function DomainAnalysis(lines: seq<string>, code: string): (r: Result<seq<string>, Error>)
    ensures r.Failure? <==> exists i :: 0 <= i < |lines| && '\t' !in lines[i]
    ensures r.Success? ==> forall d :: d in r.value <==> exists i :: 0 <= i < |lines| && Listed(lines[i], code, d)
  {
    if |lines| == 0 then Success([])
    else
      var rest := DomainAnalysis(lines[1..], code);
      assert forall i :: 0 < i < |lines| ==> lines[i] == lines[1..][i - 1];
      assert forall i :: 0 <= i < |lines| - 1 ==> lines[1..][i] == lines[i + 1];
      Concat(AnalysisRow(lines[0], code), rest)
  }

  /** The table is read line by line: the rows of two consecutive parts of
      the file give the concatenation of their domains, in order. */
  lemma {:induction false} DomainAnalysisAppend(a: seq<string>, b: seq<string>, code: string)
    ensures DomainAnalysis(a + b, code) == Concat(DomainAnalysis(a, code), DomainAnalysis(b, code))
    decreases |a|
  {
    if |a| == 0 {
      assert a + b == b;
      if DomainAnalysis(b, code).Success? {
        assert [] + DomainAnalysis(b, code).value == DomainAnalysis(b, code).value;
      }
    } else {
      DomainAnalysisAppend(a[1..], b, code);
      assert (a + b)[1..] == a[1..] + b;
      assert (a + b)[0] == a[0];
      ConcatAssociative(AnalysisRow(a[0], code), DomainAnalysis(a[1..], code), DomainAnalysis(b, code));
    }
  }

  /** The code is matched as a substring: category `118` counts as `18`. */
  lemma SubstringCodeExample(d: string, rest: string)
    requires '\t' !in d && '\t' !in rest
    ensures DomainAnalysis([d + "\t118" + rest], "18") == Success([d])
  {
    var line := d + "\t118" + rest;
    var second := "118" + rest;
    assert '\t' !in second;
    SplitPieces(second, '\t');
    SplitAt(d, second, '\t');
    assert line == d + ['\t'] + second;
    assert Split(line, '\t') == [d, second];
    assert second[1..3] == "18";
    assert OccursAt(second, "18", 1);
    assert AnalysisRow(line, "18") == Success([d]);
    assert [line][1..] == [];
    assert DomainAnalysis([line][1..], "18") == Success([]);
    assert DomainAnalysis([line], "18") == Concat(AnalysisRow([line][0], "18"), DomainAnalysis([line][1..], "18"));
    assert [d] + [] == [d];
  }

  // ---------------------------------------------------------------------
  // Alexa top-sites list (`load_alexa`)
  // ---------------------------------------------------------------------

  /** The domain of one `rank,domain` line longer than four characters:
      the line without its newline, lowered, up to its second comma. */
  predicate AlexaEntry(line: string, d: string)
  {
    var fields := Split(Lower(DropLast(line, '\n')), ',');
    |line| > 4 && |fields| >= 2 && fields[1] == d
  }

  /** One line of the list: nothing for short lines, an `IndexError` for a
      long line without a comma. */
  function AlexaRow(line: string): (r: Result<seq<string>, Error>)
    ensures r.Failure? <==> |line| > 4 && ',' !in line
    ensures r.Success? ==> |r.value| <= 1 && forall d :: d in r.value <==> AlexaEntry(line, d)
    ensures r.Success? ==> forall d :: d in r.value ==> IsLower(d) && ',' !in d
  {
    if |line| > 4 then
      var lowered := Lower(DropLast(line, '\n'));
      LowerFacts(DropLast(line, '\n'));
      assert ',' in lowered <==> ',' in line by {
        assert forall i :: 0 <= i < |lowered| ==> (lowered[i] == ',' <==> DropLast(line, '\n')[i] == ',');
      }
      var fields := Split(lowered, ',');
      SplitPieces(lowered, ',');
      if |fields| < 2 then Failure(MissingField(line))
      else
        LowerPieces(lowered, ',', 1);
        Success([fields[1]])
    else Success([])
  }

  /** The pieces of lower-case text are lower case. */
  lemma LowerPieces(s: string, c: char, k: nat)
    requires IsLower(s) && k < |Split(s, c)|
    ensures IsLower(Split(s, c)[k])
  {
    JoinSplit(s, c);
    JoinPiece(Split(s, c), c, k);
    var piece := Split(s, c)[k];
    forall i | 0 <= i < |piece| ensures !('A' <= piece[i] <= 'Z') {
      assert piece[i] in piece;
      var j :| 0 <= j < |s| && s[j] == piece[i];
    }
  }

  /** Every character of a piece occurs in the joined text. */
  lemma {:induction false} JoinPiece(parts: seq<string>, c: char, k: nat)
    requires 1 <= |parts| && k < |parts|
    ensures forall ch :: ch in parts[k] ==> ch in Join(parts, c)
    decreases |parts|
  {
    if |parts| > 1 && k > 0 {
      JoinPiece(parts[1..], c, k - 1);
    }
  }

  /** `load_alexa()` over the lines of the list: the set of domains of all
      long lines, or the `IndexError` of a long line without a comma. */
  function LoadAlexa(lines: seq<string>): (r: Result<set<string>, Error>)
    ensures r.Failure? <==> exists i :: 0 <= i < |lines| && |lines[i]| > 4 && ',' !in lines[i]
    ensures r.Success? ==> forall d :: d in r.value <==> exists i :: 0 <= i < |lines| && AlexaEntry(lines[i], d)
    ensures r.Success? ==> forall d :: d in r.value ==> IsLower(d) && ',' !in d
  {
    var perLine := seq(|lines|, i requires 0 <= i < |lines| => AlexaRow(lines[i]));
    assert forall i :: 0 <= i < |lines| ==> perLine[i] == AlexaRow(lines[i]);
    var rows := Concats(perLine);
    if rows.Failure? then Failure(rows.error)
    else Success(set d | d in rows.value)
  }

  /** The outputs of a sequence of rows, concatenated; the first failure wins. */
  function Concats(rows: seq<Result<seq<string>, Error>>): (r: Result<seq<string>, Error>)
    ensures r.Failure? <==> exists i :: 0 <= i < |rows| && rows[i].Failure?
    ensures r.Success? ==> forall d :: d in r.value <==> exists i :: 0 <= i < |rows| && d in rows[i].value
  {
    if |rows| == 0 then Success([])
    else
      var rest := Concats(rows[1..]);
      assert forall i :: 0 < i < |rows| ==> rows[i] == rows[1..][i - 1];
      assert forall i :: 0 <= i < |rows| - 1 ==> rows[1..][i] == rows[i + 1];
      Concat(rows[0], rest)
  }

  // ---------------------------------------------------------------------
  // Vendor lists (`prepare_comscore_lists`)
  // ---------------------------------------------------------------------

  /** A raw vendor file: its name in the source directory and its lines. */
  datatype VendorFile = VendorFile(name: string, lines: seq<string>)

  /** One raw vendor line, normalised: lowered; kept only when longer than
      four characters, newline included; one trailing newline and then one
      trailing `*` removed; dropped when it contains a space. */
  function Normalise(line: string): (r: Option<string>)
    ensures r.None? <==> |line| <= 4 || ' ' in line
    ensures r.Some? ==> StripsTo(Lower(line), r.value)
  {
    var lowered := Lower(line);
    if |lowered| > 4 then
      var unstarred := DropLast(DropLast(lowered, '\n'), '*');
      NormaliseFacts(line, lowered, unstarred);
      if ' ' in unstarred then None else Some(unstarred)
    else None
  }

  /** A kept line is in lower case, and is the lowered line with a trailing
      newline removed when there is one, and then a trailing `*` removed when
      there is one: nothing else is removed. */
  lemma NormaliseShape(line: string)
    ensures Normalise(line).None? <==> |line| <= 4 || ' ' in line
    ensures Normalise(line).Some? ==> ' ' !in Normalise(line).value && |Normalise(line).value| >= |line| - 2
    ensures Normalise(line).Some? ==> IsLower(Normalise(line).value)
    ensures Normalise(line).Some? ==> StripsTo(Lower(line), Normalise(line).value)
  {
    if Normalise(line).Some? {
      var lowered := Lower(line);
      var unstarred := DropLast(DropLast(lowered, '\n'), '*');
      assert Normalise(line).value == unstarred;
      NormaliseFacts(line, lowered, unstarred);
    }
  }

  /** `v` is `l` less its trailing newline, if any, and then less its
      trailing `*`, if any: one case for each of the four line endings. */
  predicate StripsTo(l: string, v: string)
  {
    && (EndsWith(l, "*\n") ==> l == v + ['*', '\n'])
    && (EndsWith(l, "\n") && !EndsWith(l, "*\n") ==> l == v + ['\n'])
    && (!EndsWith(l, "\n") && EndsWith(l, "*") ==> l == v + ['*'])
    && (!EndsWith(l, "\n") && !EndsWith(l, "*") ==> l == v)
  }

  lemma NormaliseFacts(line: string, lowered: string, unstarred: string)
    requires lowered == Lower(line) && unstarred == DropLast(DropLast(lowered, '\n'), '*')
    ensures ' ' in unstarred <==> ' ' in line
    ensures |unstarred| >= |line| - 2
    ensures IsLower(unstarred)
    ensures StripsTo(lowered, unstarred)
  {
    StripsSuffixes(lowered, unstarred);
    LowerFacts(line);
    assert forall i :: 0 <= i < |line| ==> (lowered[i] == ' ' <==> line[i] == ' ');
  }

  /** Removing one trailing newline and then one trailing `*` keeps a prefix
      of at least all but two characters, as `StripsTo` describes. */
  lemma StripsSuffixes(l: string, v: string)
    requires v == DropLast(DropLast(l, '\n'), '*')
    ensures |v| >= |l| - 2
    ensures forall i :: 0 <= i < |v| ==> v[i] == l[i]
    ensures forall i :: |v| <= i < |l| ==> l[i] == '*' || l[i] == '\n'
    ensures StripsTo(l, v)
  {
    var unlined := DropLast(l, '\n');
    assert unlined == l[..|unlined|];
    assert v == unlined[..|v|];
    if EndsWith(l, "\n") {
      assert l == unlined + ['\n'];
      if EndsWith(l, "*\n") {
        assert unlined[|unlined| - 1] == '*';
        assert l == v + ['*', '\n'];
      } else {
        assert |unlined| == 0 || unlined[|unlined| - 1] != '*';
      }
    } else {
      assert unlined == l;
    }
  }

  /** A starred vendor entry with its newline, `example.org*`, is kept as
      `example.org`. */
  lemma StarredEntryExample()
    ensures Normalise("example.org*\n") == Some("example.org")
  {
    var line := "example.org*\n";
    forall i | 0 <= i < |line|
      ensures line[i] == '.' || line[i] == '*' || line[i] == '\n' || 'a' <= line[i] <= 'z'
    {
    }
    LowerKeeps(line);
    assert DropLast(line, '\n') == "example.org*";
    assert DropLast("example.org*", '*') == "example.org";
    assert ' ' !in "example.org";
  }

  /** Some line of the vendor file normalises to `d`. */
  predicate Kept(lines: seq<string>, d: string)
  {
    exists i :: 0 <= i < |lines| && Normalise(lines[i]) == Some(d)
  }

  /** The values present in a sequence of options, collected one by one. */
  function Somes(opts: seq<Option<string>>): set<string>
  {
    if |opts| == 0 then {}
    else Somes(opts[..|opts| - 1]) + (if opts[|opts| - 1].Some? then {opts[|opts| - 1].value} else {})
  }

  /** One more option adds its value, if any. */
  lemma SomesStep(opts: seq<Option<string>>, n: nat)
    requires n < |opts|
    ensures Somes(opts[..n + 1]) == Somes(opts[..n]) + (if opts[n].Some? then {opts[n].value} else {})
  {
    assert opts[..n + 1][..n] == opts[..n];
  }

  lemma {:induction false} SomesMember(opts: seq<Option<string>>, d: string)
    ensures d in Somes(opts) <==> exists i :: 0 <= i < |opts| && opts[i] == Some(d)
  {
    if |opts| > 0 {
      var n := |opts| - 1;
      var init := opts[..n];
      SomesMember(init, d);
      if d in Somes(opts) {
        if d in Somes(init) {
          var i :| 0 <= i < |init| && init[i] == Some(d);
          assert opts[i] == init[i];
        }
      } else {
        forall i | 0 <= i < |opts|
          ensures opts[i] != Some(d)
        {
          if i < n {
            assert opts[i] == init[i];
          }
        }
      }
    }
  }

  /** The outcome of the normaliser for every line of a vendor file. */
  function NormaliseAll(lines: seq<string>): (r: seq<Option<string>>)
    ensures |r| == |lines|
  {
    seq(|lines|, i requires 0 <= i < |lines| => Normalise(lines[i]))
  }

  /** The set of normalised lines of a vendor file. */
  function VendorDomains(lines: seq<string>): set<string>
  {
    Somes(NormaliseAll(lines))
  }

  /** The vendor set holds exactly the normalised lines. */
  lemma VendorDomainsMember(lines: seq<string>, d: string)
    ensures d in VendorDomains(lines) <==> Kept(lines, d)
  {
    var opts := NormaliseAll(lines);
    SomesMember(opts, d);
    assert forall i :: 0 <= i < |lines| ==> opts[i] == Normalise(lines[i]);
  }

  /** The content of a `.dump` file: the normalised lines that are in the reference set. */
  predicate DumpOf(dump: set<string>, lines: seq<string>, alexa: set<string>)
  {
    dump == VendorDomains(lines) * alexa
  }

  /** `prepare_comscore_lists` for one vendor file: the normalised lines
      that are in the reference set, and how many were written. */
  method CleanVendorList(lines: seq<string>, alexa: set<string>) returns (dump: set<string>, written: nat)
    ensures forall d :: d in dump <==> d in alexa && Kept(lines, d)
    ensures DumpOf(dump, lines, alexa)
    ensures written == |dump|
  {
    var domains := CollectDomains(lines);
    dump, written := WriteDump(domains, alexa);
    forall d ensures d in dump <==> d in alexa && Kept(lines, d) {
      VendorDomainsMember(lines, d);
    }
  }

  /** The first loop: the set of normalised lines. */
  method CollectDomains(lines: seq<string>) returns (domains: set<string>)
    ensures domains == VendorDomains(lines)
  {
    var opts := NormaliseAll(lines);
    domains := {};
    for n := 0 to |lines|
      invariant domains == Somes(opts[..n])
    {
      var line := opts[n];
      SomesStep(opts, n);
      if line.Some? {
        domains := domains + {line.value};
      }
    }
    assert opts[..|lines|] == opts;
  }

  /** The second loop: visits the set in an arbitrary order and writes, and
      counts, the domains that are in the reference set. */
  method WriteDump(domains: set<string>, alexa: set<string>) returns (dump: set<string>, written: nat)
    ensures dump == domains * alexa
    ensures written == |dump|
  {
    dump := {};
    written := 0;
    var rest := domains;
    while rest != {}
      invariant rest <= domains
      invariant dump == (domains - rest) * alexa
      invariant written == |dump|
      decreases |rest|
    {
      var d :| d in rest;
      if d in alexa {
        dump := dump + {d};
        written := written + 1;
      }
      rest := rest - {d};
    }
  }

  /** The file-name rules: files ending in `dump` are results of an earlier
      run and skipped; otherwise the category is the name up to its first dot. */
  function DumpCategory(name: string): (r: Option<string>)
    ensures r.None? <==> EndsWith(name, "dump")
  {
    if EndsWith(name, "dump") then None else Some(Split(name, '.')[0])
  }

  /** The category of a vendor file is the longest dot-free prefix of its name. */
  lemma DumpCategoryShape(name: string)
    requires DumpCategory(name).Some?
    ensures '.' !in DumpCategory(name).value && DumpCategory(name).value <= name
    ensures '.' !in name ==> DumpCategory(name).value == name
    ensures '.' in name ==> name[|DumpCategory(name).value|] == '.'
  {
    SplitFields(name, '.');
    SplitPieces(name, '.');
  }

  /** No file after the `i`-th among the first `n` has the same category. */
  predicate LatestBefore(files: seq<VendorFile>, i: nat, n: nat)
    requires i < n <= |files|
  {
    forall j :: i < j < n ==> DumpCategory(files[j].name) != DumpCategory(files[i].name)
  }

  /** The dump files after processing `files` in order, keyed by category. */
  function Dumps(files: seq<VendorFile>, alexa: set<string>): map<string, set<string>>
  {
    if |files| == 0 then map[]
    else
      var last := files[|files| - 1];
      var dumps := Dumps(files[..|files| - 1], alexa);
      match DumpCategory(last.name)
      case Some(category) => dumps[category := VendorDomains(last.lines) * alexa]
      case None => dumps
  }

  /** There is one dump per category of a vendor file. */
  lemma {:induction false} DumpsKeys(files: seq<VendorFile>, alexa: set<string>, category: string)
    ensures category in Dumps(files, alexa) <==> exists i :: 0 <= i < |files| && DumpCategory(files[i].name) == Some(category)
  {
    if |files| > 0 {
      var init := files[..|files| - 1];
      var last := DumpCategory(files[|files| - 1].name);
      DumpsKeys(init, alexa, category);
      assert category in Dumps(files, alexa) <==> category in Dumps(init, alexa) || last == Some(category);
      assert forall i :: 0 <= i < |init| ==> init[i] == files[i];
      if exists i :: 0 <= i < |files| && DumpCategory(files[i].name) == Some(category) {
        var i :| 0 <= i < |files| && DumpCategory(files[i].name) == Some(category);
        assert i < |init| || last == Some(category);
      }
    }
  }

  /** The dump of a category holds what the last vendor file of that
      category leaves after normalising and intersecting. */
  lemma {:induction false} DumpsLatest(files: seq<VendorFile>, alexa: set<string>, i: nat)
    requires i < |files| && DumpCategory(files[i].name).Some? && LatestBefore(files, i, |files|)
    ensures DumpCategory(files[i].name).value in Dumps(files, alexa)
    ensures Dumps(files, alexa)[DumpCategory(files[i].name).value] == VendorDomains(files[i].lines) * alexa
  {
    var init := files[..|files| - 1];
    if i < |files| - 1 {
      assert forall j :: i < j < |init| ==> init[j] == files[j];
      assert init[i] == files[i];
      DumpsLatest(init, alexa, i);
    }
  }

  /** What the dump of a category holds: the kept lines of the category's
      last vendor file that are in the reference set. */
  lemma DumpsContent(files: seq<VendorFile>, alexa: set<string>, i: nat)
    requires i < |files| && DumpCategory(files[i].name).Some? && LatestBefore(files, i, |files|)
    ensures DumpCategory(files[i].name).value in Dumps(files, alexa)
    ensures forall d :: d in Dumps(files, alexa)[DumpCategory(files[i].name).value] <==> d in alexa && Kept(files[i].lines, d)
  {
    DumpsLatest(files, alexa, i);
    forall d {
      VendorDomainsMember(files[i].lines, d);
    }
  }

  /** `prepare_comscore_lists()`: loads the reference set (failing as the
      loader does), then writes one dump per vendor file, keyed by category.
      Two files of one category write the same dump file, so the later one wins. */
  method PrepareComscore(alexaLines: seq<string>, files: seq<VendorFile>) returns (r: Result<map<string, set<string>>, Error>)
    ensures r.Failure? <==> LoadAlexa(alexaLines).Failure?
    ensures r.Success? ==> r.value == Dumps(files, LoadAlexa(alexaLines).value)
  {
    var loaded := LoadAlexa(alexaLines);
    if loaded.Failure? {
      return Failure(loaded.error);
    }
    var alexa := loaded.value;
    var dumps: map<string, set<string>> := map[];
    for n := 0 to |files|
      invariant dumps == Dumps(files[..n], alexa)
    {
      var category := DumpCategory(files[n].name);
      if category.Some? {
        var dump, written := CleanVendorList(files[n].lines, alexa);
        dumps := dumps[category.value := dump];
      }
      assert files[..n + 1][..n] == files[..n];
    }
    assert files[..|files|] == files;
    return Success(dumps);
  }

  // ---------------------------------------------------------------------
  // Plain domain lists (the comScore dump and the drugs suggestions)
  // ---------------------------------------------------------------------

  /** The lines longer than four characters, newline included, each without
      its trailing newline, in file order. */
  function ReadList(lines: seq<string>): (r: seq<string>)
    ensures |r| <= |lines|
    ensures forall d :: d in r <==> exists i :: 0 <= i < |lines| && |lines[i]| > 4 && DropLast(lines[i], '\n') == d
  {
    if |lines| == 0 then []
    else
      assert forall i :: 0 < i < |lines| ==> lines[i] == lines[1..][i - 1];
      assert forall i :: 0 <= i < |lines| - 1 ==> lines[1..][i] == lines[i + 1];
      (if |lines[0]| > 4 then [DropLast(lines[0], '\n')] else []) + ReadList(lines[1..])
  }

  /** A list written one entry per line, as `g.write(domain + "\n")` does.
      Each entry must be free of newlines for its text to come back as one
      line; a dump's entries are, since each is read from a single line. */
  function WriteList(ds: seq<string>): (lines: seq<string>)
    requires forall i :: 0 <= i < |ds| ==> '\n' !in ds[i]
    ensures |lines| == |ds|
  {
    seq(|ds|, i requires 0 <= i < |ds| => ds[i] + "\n")
  }

  /** Lines are read in file order: reading two consecutive parts of a
      file gives the first part's entries followed by the second's. */
  lemma {:induction false} ReadListAppend(a: seq<string>, b: seq<string>)
    ensures ReadList(a + b) == ReadList(a) + ReadList(b)
    decreases |a|
  {
    if |a| > 0 {
      ReadListAppend(a[1..], b);
      assert (a + b)[0] == a[0];
      assert (a + b)[1..] == a[1..] + b;
      var head := if |a[0]| > 4 then [DropLast(a[0], '\n')] else [];
      AppendAssociative(head, ReadList(a[1..]), ReadList(b));
    } else {
      assert a + b == b;
    }
  }

  /** One line gives its text without the newline when it is longer than
      four characters, and nothing otherwise. */
  lemma ReadListOne(line: string)
    ensures ReadList([line]) == (if |line| > 4 then [DropLast(line, '\n')] else [])
  {
    assert [line][1..] == [];
  }

  /** The entries of four or more characters, in order. */
  function LongEntries(ds: seq<string>): (r: seq<string>)
    ensures forall d :: d in r <==> d in ds && |d| >= 4
  {
    if |ds| == 0 then []
    else
      assert forall d :: d in ds <==> d == ds[0] || d in ds[1..] by {
        assert ds == [ds[0]] + ds[1..];
      }
      (if |ds[0]| >= 4 then [ds[0]] else []) + LongEntries(ds[1..])
  }

  /** Reading back a written list keeps, in order, exactly the entries of
      four or more characters: an entry shorter than that is dropped, so a
      list of long entries comes back whole. The entries are newline-free,
      as the lines of a dump are. */
  lemma {:induction false} ReadWrittenList(ds: seq<string>)
    requires forall i :: 0 <= i < |ds| ==> '\n' !in ds[i]
    ensures ReadList(WriteList(ds)) == LongEntries(ds)
    ensures (forall i :: 0 <= i < |ds| ==> |ds[i]| >= 4) ==> ReadList(WriteList(ds)) == ds
    ensures (forall i :: 0 <= i < |ds| ==> |ds[i]| < 4) ==> ReadList(WriteList(ds)) == []
  {
    ReadWrittenEntries(ds);
    LongEntriesAllOrNone(ds);
  }

  lemma {:induction false} ReadWrittenEntries(ds: seq<string>)
    requires forall i :: 0 <= i < |ds| ==> '\n' !in ds[i]
    ensures ReadList(WriteList(ds)) == LongEntries(ds)
  {
    if |ds| > 0 {
      var first, tail := ds[0], ds[1..];
      assert forall i :: 0 <= i < |tail| ==> tail[i] == ds[i + 1];
      ReadWrittenEntries(tail);
      WriteListCons(ds);
      ReadListAppend([first + "\n"], WriteList(tail));
      ReadListOne(first + "\n");
      assert DropLast(first + "\n", '\n') == first;
    }
  }

  /** Writing a list writes its first entry's line, then the rest. */
  lemma WriteListCons(ds: seq<string>)
    requires |ds| > 0 && forall i :: 0 <= i < |ds| ==> '\n' !in ds[i]
    ensures WriteList(ds) == [ds[0] + "\n"] + WriteList(ds[1..])
  {
    assert forall i :: 0 <= i < |ds| - 1 ==> ds[1..][i] == ds[i + 1];
  }

  /** A list whose entries are all long keeps every one of them; a list
      whose entries are all short keeps none. */
  lemma {:induction false} LongEntriesAllOrNone(ds: seq<string>)
    ensures (forall i :: 0 <= i < |ds| ==> |ds[i]| >= 4) ==> LongEntries(ds) == ds
    ensures (forall i :: 0 <= i < |ds| ==> |ds[i]| < 4) ==> LongEntries(ds) == []
  {
    if |ds| > 0 {
      LongEntriesAllOrNone(ds[1..]);
      assert forall i :: 0 <= i < |ds| - 1 ==> ds[1..][i] == ds[i + 1];
      assert [ds[0]] + ds[1..] == ds;
    }
  }
}
