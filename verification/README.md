# Restricted-content blacklist builder, modelled in Dafny

`create.py` builds lists of adult, gambling, drugs and alcohol domains. It
pulls domains from a store of crawled site records (matching the segments of
their DMOZ category paths), from a hand-classified tab-separated table, from
vendor (comScore) lists cleaned against the Alexa top-sites list, and from a
`.xxx` top-level-domain scan. Each genre's list is sorted and free of
duplicates. The mapping of genres to lists is then written in plain text and
in three obfuscated encodings: base 64, MD5 hex, and base 64 of the raw MD5
digest. Every encoding ends with the sentinel `example.com`.

This project models that logic as pure Dafny functions and methods over
in-memory inputs:

- the store is a sequence of `Dmoz.Site` records;
- every file is the sequence of lines Python's file iteration yields, each
  with its newline;
- the directory listing is a sequence of `Sources.VendorFile` values;
- the genre mapping is a sequence of `(category, domains)` pairs in
  dictionary iteration order.

Modules, one per component:

| file | module | what it models |
|---|---|---|
| wrappers.dfy | `Wrappers` | `Option` and `Result` (a value or the exception that ends the run) |
| text.dfy | `Text` | the Python string operations used: `split` on one character, substring `in`, `endswith`, stripping one trailing character, Python 2 byte-string `lower`, `replace` |
| ordering.dfy | `Ordering` | Python's string `<` and the strictly sorted lists `sorted(list(a_set))` returns |
| dmoz.dfy | `Dmoz` | `category_chunk`, with the category container as a tagged union |
| sources.dfy | `Sources` | `check_domain_analysis`, `load_alexa`, `prepare_comscore_lists`, and the plain list reads of the aggregators |
| genres.dfy | `Genres` | the four `get_*_sites` aggregators |
| bytes.dfy, base64.dfy, hex.dfy | `Bytes`, `Base64`, `Hex` | byte strings; base 64 (section 4 of RFC 4648) and lower-case hex, each with a decoder that accepts exactly one text per byte string, and round-trip proofs both ways |
| encoders.dfy | `Encoders` | `create_base64_version`, `create_md5_version`, `create_md5_b64_version` |

`Dmoz.CategoryChunk` follows the source's nested loops, including the
`break`, the exclusion pass and the `KeyError` handler. It is proved equal to
`Dmoz.Chunk`, a record-by-record reference definition. The aggregators are
stated over `Chunk`. Where the Python raises an exception the model does
not require it away: `check_domain_analysis` on a row without a tab,
`load_alexa` on a long line without a comma, and the adult `.xxx` scan on a
record without a `domain` all return `Failure`.

Notes on what the code does:

- Vendor lines are not trimmed. Only one trailing newline and then one
  trailing `*` are removed, and a line must be longer than four characters,
  newline included. So the dump can hold a three-character entry, such as
  the one from `abc*\n`. Reading the dump back keeps, in order, exactly the
  entries of four or more characters, so that entry is dropped (see
  `Sources.ReadWrittenList`).
- Only the category matcher recovers from a missing key. The `.xxx` scan in
  `get_adult_sites` reads `domain` outside any `try`, so a record without
  one aborts the adult list.
- The table match is substring containment, so code `18` also matches
  `118`. This is kept (`Sources.SubstringCodeExample`).

## Model

| member | source | states |
|---|---|---|
| Dmoz.CategoryChunk | create.py:43-81 | the output is exactly `Chunk`: the records' contributions concatenated in scan order, with the include list turned into a set |
| Dmoz.MatchRecord | create.py:55-79 | one record contributes exactly `Contribution`: nothing when its container is absent, raises `KeyError` or is excluded, or when it has no domain; otherwise its cleaned domain once per matching path |
| Dmoz.NegativeFlag | create.py:64-68 | the exclusion flag is set exactly when some path has a `/`-segment in the exclusion set |
| Dmoz.SegmentMatch | create.py:72-77 | the segment loop, stopping at the first hit, finds a match exactly when some segment of the path is an include token |
| Dmoz.IntersectsIffTouches | create.py:66-67 | `negative.intersection(set(path.split('/')))` is non-empty exactly when some segment is an exclusion token |
| Dmoz.Paths | create.py:57-62 | container shapes are normalised: a list gives its `@ID`s in order; a single mapping gives a one-element list; `{}` gives no paths; a missing field or `@ID` gives `None` (record skipped) |
| Dmoz.AllIds | create.py:60 | a list of mappings gives all their `@ID`s in order, or `None` as soon as one mapping lacks the key |
| Dmoz.Clean | create.py:75 | the emitted name has the stored name's length, every `#` becomes `.`, every other character stays in place, and no `#` is left |
| Dmoz.ChunkClean | create.py:54-81 | no string emitted by the matcher contains `#` |
| Dmoz.MatchCountBounds | create.py:71-77 | a record is emitted at most once per path, once for every path when all paths match, and at least once exactly when some path matches |
| Dmoz.MatchCountAppend | create.py:71-77 | the per-path count adds up over the list of paths |
| Dmoz.ChunkAppend | create.py:54-79 | the scan is record by record: the output for two consecutive groups of records is the concatenation of their outputs |
| Dmoz.SkipMalformed | create.py:78-79 | a record whose container is absent or raises `KeyError` adds nothing and leaves the records before and after it unaffected |
| Dmoz.Contribution | create.py:56-77 | a record contributes something only when it has a domain, a readable container and no excluded path, and then at most one entry per path |
| Dmoz.ChunkMember | create.py:54-81 | a domain is emitted exactly when some record is selected, readable, not excluded, has a domain that cleans to it, and has a path with an include segment |
| Dmoz.ContributionMember | create.py:56-77 | a record emits a name exactly under the conditions above |
| Dmoz.ExclusionWins | create.py:64-70 | when every record cleaning to `d` has a path with an exclusion segment, `d` is never emitted, even if other paths match |
| Dmoz.NoExclusionWithoutTokens | create.py:64-70 | with no exclusion tokens (the default `negative=False` skips the `if negative:` pass) a domain is emitted exactly when a readable record with that cleaned domain has a path with an include segment: nothing is excluded |
| Dmoz.TwoMatchingPaths | create.py:71-77 | a record with two matching paths is emitted twice: the `break` leaves only the segment loop |
| Dmoz.SingleMatchingPath | create.py:57-77 | a record with one matching path is emitted once, cleaned |
| Dmoz.AdultExample | create.py:71-77 | `foo#bar#com` filed under `<top>/Adult/<leaf>` is found by `Adult` as `foo.bar.com` |
| Sources.AnalysisRow | create.py:89-93 | a table row gives its first tab-field when its second contains the code, nothing otherwise, and an `IndexError` when it has no tab |
| Sources.DomainAnalysis | create.py:83-95 | the table read fails exactly when some row has no tab; otherwise it returns exactly the first fields of the rows whose second field contains the code |
| Sources.DomainAnalysisAppend | create.py:88-93 | rows are processed in file order: two consecutive parts of the file give the concatenation of their results, the first failure winning |
| Sources.SubstringCodeExample | create.py:92 | code `18` matches category field `118…`: containment, not equality |
| Sources.AlexaRow | create.py:104-108 | a line longer than four characters gives the lowered second comma-field of the line without its newline; a long line without a comma raises `IndexError`; entries are lower case and comma-free |
| Sources.LoadAlexa | create.py:97-109 | the reference set holds exactly the entries of the long lines; loading fails exactly when a long line has no comma |
| Sources.Normalise | create.py:129-136 | a vendor line is dropped exactly when it has at most four characters or holds a space; a kept line is the lowered line less its ending, one case per ending: `*` then newline, newline alone, `*` alone, or neither |
| Sources.NormaliseShape | create.py:129-136 | as `Normalise`, and the kept text is lower case, space-free and at most two characters shorter than the line |
| Sources.StarredEntryExample | create.py:129-136 | the vendor line `example.org*` with its newline is kept as `example.org` |
| Sources.VendorDomainsMember | create.py:127-136 | the vendor set holds exactly the normalised lines |
| Sources.CollectDomains | create.py:127-136 | the first loop builds the set of normalised lines |
| Sources.WriteDump | create.py:139-143 | the second loop, in any set order, writes the vendor set intersected with the reference set, and counts what it writes |
| Sources.CleanVendorList | create.py:123-145 | a dump holds exactly the normalised vendor lines that are in the reference set (so it is a subset of that set), and the printed count is its size |
| Sources.DumpCategory | create.py:121-124 | a file is skipped exactly when its name ends in `dump` |
| Sources.DumpCategoryShape | create.py:124 | the category is the name up to its first dot: dot-free, a prefix of the name, the whole name when there is no dot |
| Sources.DumpsKeys | create.py:120-139 | there is a dump for a category exactly when some non-skipped file has that category |
| Sources.DumpsLatest | create.py:120-143 | a category's dump is that of the last file with that category |
| Sources.DumpsContent | create.py:123-143 | the dump of a category holds exactly the kept lines of its last vendor file that are in the reference set |
| Sources.PrepareComscore | create.py:111-145 | fails exactly when the reference list does; otherwise the directory loop leaves exactly the dumps of `Dumps`, the file-by-file reference fold in which a later file of a category overwrites the earlier one |
| Sources.ReadList | create.py:198-203 | a plain list read yields at most one entry per line, and an entry exactly when some line longer than four characters is that entry with its trailing newline removed |
| Sources.ReadListAppend | create.py:198-203 | lines are read in file order: two consecutive parts of a file give the first part's entries followed by the second's |
| Sources.ReadListOne | create.py:199-203 | a single line gives its text less a trailing newline when it is longer than four characters, and nothing otherwise |
| Sources.LongEntries | create.py:200 | the entries kept on reading back are exactly the listed ones with four or more characters |
| Sources.ReadWrittenEntries | create.py:198-203 | reading back any written list of newline-free entries, mixed lengths included, gives exactly its entries of four or more characters, in their order |
| Sources.ReadWrittenList | create.py:198-203 | reading back a list of newline-free entries written by `WriteList`, one entry per line as the dump is written at create.py:143 (`domain + "\n"`), gives exactly the entries of four or more characters, in order; so a list of long entries comes back whole and a list of short ones comes back empty |
| Ordering.Insert | create.py:205 | inserting into a strictly sorted list keeps it strictly sorted and adds exactly the new element |
| Ordering.SortedUnique | create.py:205 | two strictly sorted lists with the same elements are equal |
| Ordering.BelowTotal | create.py:205 | Python's string order is total on distinct strings |
| Ordering.BelowTransitive | create.py:205 | Python's string order is transitive |
| Genres.SortedSet | create.py:205 | `sorted(list(set))` is strictly sorted (so duplicate-free) and holds exactly the sources' elements less the dropped ones |
| Genres.SortedSetUnique | create.py:205 | any strictly sorted list of the same elements is the aggregate itself |
| Genres.XxxSites | create.py:193-195 | the `.xxx` scan returns exactly the cleaned domains of records whose raw domain ends in `xxx`, and fails exactly when a record has no domain |
| Genres.AdultSites | create.py:179-205 | the adult list fails exactly when the table or the `.xxx` scan does; otherwise it is strictly sorted and is exactly the union of the `Adult` matches, table code `18`, the `.xxx` domains and the comScore adult dump |
| Genres.GamblingSites | create.py:207-219 | strictly sorted; exactly the domains emitted for `Poker`, `Gambling` or `Blackjack` |
| Genres.DrugsSites | create.py:221-246 | strictly sorted; never contains `fungi.com`; otherwise exactly the `Drugs` matches and the suggestion-list entries |
| Genres.AlcoholSites | create.py:248-265 | strictly sorted; exactly the domains emitted for `Wine`, `Beer` or `Liquor` by records with no path through `DOS_and_Windows` |
| Genres.AlcoholExclusionExample | create.py:259-262 | a wine site also filed under `DOS_and_Windows` is left out of the alcohol list |
| Encoders.Flatten | create.py:271-272 | the category-then-domain walk visits as many domains as the categories hold in total |
| Encoders.FlattenFacts | create.py:271-272 | the walk loses no domain and adds none |
| Encoders.FlattenAppend | create.py:271-272 | categories are walked in order: two consecutive groups of categories walk to the concatenation |
| Encoders.Encode | create.py:270-277 | the output has one entry per domain plus one; entry `i` is the encoding of the `i`-th domain of the walk; the last entry is the encoded `example.com` |
| Encoders.EveryDomainEncoded | create.py:271-273 | every domain of every category is in the output, encoded |
| Encoders.Base64Version | create.py:267-277 | the base 64 output has one entry per domain plus one; each entry is `b64encode` of its domain's bytes and decodes back to them, and the last is that of `example.com` |
| Encoders.Md5Version | create.py:279-289 | the md5 output has one entry per domain plus one; each entry is the `hexdigest` rendering of its domain's digest and decodes back to it, and the last is that of `example.com` |
| Encoders.Md5B64Version | create.py:291-301 | each entry of the combined output is `b64encode` of the raw digest of its domain and decodes back to it, and the last is that of `example.com` |
| Encoders.Base64TextUnique | create.py:273 | a base 64 entry is the only text that decodes to its domain's bytes |
| Encoders.DigestOutputsAgree | create.py:285-297 | decoding a combined entry and rendering it in hex gives the md5 output's entry at the same position, so base 64 is applied to the raw digest, not the hex text |
| Encoders.Md5EntryLength | create.py:285 | with a 16-byte digest every md5 entry has 32 hex digits |
| Base64.Encode | create.py:273 | every started group of three bytes becomes four characters, padding included, as section 4 of RFC 4648 prescribes |
| Base64.DecodeEncode | create.py:273 | base 64 text decodes back to the bytes it encodes |
| Base64.EncodeDecode | create.py:273 | every text the decoder accepts is the encoding of the bytes it decodes to, so no other text (non-zero pad bits, say) passes for an entry |
| Base64.StandardVectors | create.py:273 | the encoder gives the test vectors of section 10 of RFC 4648 (`f` is `Zg==`, `foobar` is `Zm9vYmFy`, …), and `Zh==`, with non-zero pad bits, is rejected |
| Base64.EncodeInjective | create.py:273 | distinct byte strings have distinct base 64 texts |
| Hex.Encode | create.py:285 | `hexdigest` renders each byte as two digits |
| Hex.DecodeEncode | create.py:285 | a hex digest reads back to the digest |
| Hex.EncodeDecode | create.py:285 | every text the decoder accepts is the rendering of what it decodes to, so no other text passes for an entry |
| Hex.EncodeInjective | create.py:285 | distinct digests have distinct hex renderings |
| Hex.StandardVectors | create.py:285 | `f` is `66` and the bytes 15, 160 are `0fa0`: lower-case digits, high nibble first |
| Text.Split | create.py:66-72 | `str.split` on one character always gives at least one piece, and no piece holds the separator |
| Text.SplitPieces | create.py:89-91 | there are two or more pieces exactly when the separator occurs; text without it is its own single piece |
| Text.JoinSplit | create.py:72 | joining the pieces with the separator gives back the text |
| Text.SplitFields | create.py:89-91 | the first field is the text before the first separator |
| Text.Replace | create.py:75 | replacing `#` by `.` keeps the length and leaves no `#` |
| Text.LowerFacts | create.py:107 | Python 2 `lower` on a byte string leaves no upper-case ASCII letter and changes nothing else |
| Text.Lower | create.py:107 | Python 2 `lower` keeps the length of the text |
| Text.Contains | create.py:91-92 | substring `in`: a contained text is no longer than the container, the empty text is in every text, and a suffix is contained |
| Text.EndsWith | create.py:131 | `endswith`: the text is what precedes the suffix followed by the suffix, and every text ends with the empty text |
| Text.DropLast | create.py:105-106 | removing one trailing character takes it off only when it is there |

## Left out

- The MongoDB handle and its queries are replaced by the sequence of
  records. The `$exists` filter is the `Absent` container, and the
  projection keeps only `domain` and the category field.
- File reads and writes, `listdir`, JSON `dumps` and `print` are left out.
  Files are given as their lines. The dump files and the output objects are
  results.
- The date-derived path of the Alexa file is left out. It depends on the
  clock, and only the list's lines matter to the result.
- `check_toulouse_list` is left out. It relies on `tldextract`, a public
  suffix list whose behaviour is not visible here. Also, its final
  `format()` call has no argument, so it would raise.
- MD5 (RFC 1321) is left out. The digest function is a parameter of the md5
  encoders. Base 64 and hex are modelled concretely.
- The conversion of a Python string to the bytes the codecs receive is a
  parameter (`bytes`). Python 2 would raise on a non-ASCII `unicode` domain.
- Python 2 dictionary iteration order is an input: the genre mapping is a
  sequence of pairs in the order the dictionary yields them.
- The `__main__` orchestration is left out: the order of calls, and
  rebinding `sites` to the JSON text before the plain output is written.
- `Text.Lower`: models ASCII-only lowering, which is what Python 2 `str.lower`
  does in the C locale. Locale-dependent lowering of other bytes is not
  modelled.
- `Sources.WriteDump`: states the dump as a set. The order in which the
  Python set yields the lines is not modelled.
- `Genres.SortedSet`: the aggregators' failure conditions and their order
  are modelled for ASCII data only. Python 2 has two string types here: the
  store yields `unicode` values (which is why create.py:260 converts the
  exclusion tokens), while file lines are byte strings. `sorted` at
  create.py:205 and :246 raises `UnicodeDecodeError` when a non-ASCII byte
  string from the table, a dump or the suggestion file meets a `unicode`
  domain; the model has one string type, so `Genres.AdultSites` and
  `Genres.DrugsSites` return `Success` there. `Ordering.Below` compares code
  points, whereas a narrow Python 2 build compares `unicode` values by UTF-16
  code unit; the two agree on ASCII.
- `Dmoz.Paths`: mappings are represented by their `@ID` entry only, and
  `@ID` and `domain` values are strings. A container that is neither a
  mapping nor a list of mappings raises `TypeError` in Python, and a
  non-string `@ID` or `domain` raises `AttributeError` at create.py:66, 72,
  75 or 194; neither case is representable here.
