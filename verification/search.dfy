/** Full-text search over the notes: `getAllMarkdownFiles`, a depth-first walk of
    the notes directory in `readdir` order, and `searchNotes`, which matches the
    term against each note's name and then its text, stopping at twelve results.
    utils.js and commands/quickSearch.js carry the same two functions, so they are
    modelled once; the quick-pick mapping of commands/quickSearch.js is here too. */
module Search {
  import opened Base
  import opened Paths
  import opened Disk

  /** `path.extname(file.name).toLowerCase() === '.md'` on an entry that is not a directory:
      no `isFile()` test is made, so any other kind of entry with that extension counts. */
  predicate IsMarkdownFile(e: DirEntry)
  {
    e.kind != Directory && IsMarkdownName(e.name)
  }

  /** `getAllMarkdownFiles(dir)`: a failing `readdir` anywhere in the walk rejects the whole call. */
  function MarkdownFiles(fs: FileSystem, dir: Path): Result<seq<Path>, Error>
    decreases |DirsUnder(fs, dir)|, 1
  {
    match ReadDir(fs, dir)
    case Err(e) => Err(e)
    case Ok(es) => MarkdownFilesIn(fs, dir, es)
  }

  /** What the loop over the entries `es` of `dir` accumulates: each subdirectory's files
      spliced in at its position, each markdown file appended. */
  function MarkdownFilesIn(fs: FileSystem, dir: Path, es: seq<DirEntry>): Result<seq<Path>, Error>
    requires dir in fs.dirs
    decreases |DirsUnder(fs, dir)|, 0, |es|
  {
    if |es| == 0 then Ok([])
    else
      match MarkdownFilesIn(fs, dir, es[..|es| - 1])
      case Err(e) => Err(e)
      case Ok(acc) =>
        var e := es[|es| - 1];
        if e.kind == Directory then
          DirsUnderShrink(fs, dir, e.name);
          match MarkdownFiles(fs, dir + [e.name])
          case Err(err) => Err(err)
          case Ok(sub) => Ok(acc + sub)
        else if IsMarkdownName(e.name) then Ok(acc + [dir + [e.name]])
        else Ok(acc)
  }

  /** The loop over the listing of `dir`, recursing into every subdirectory. */
  method GetAllMarkdownFiles(fs: FileSystem, dir: Path) returns (r: Result<seq<Path>, Error>)
    ensures r == MarkdownFiles(fs, dir)
    decreases |DirsUnder(fs, dir)|
  {
    var read := ReadDir(fs, dir);
    if read.Err? {
      return Err(read.error);
    }
    var files := read.value;
    var mdFiles: seq<Path> := [];
    for i := 0 to |files|
      invariant MarkdownFilesIn(fs, dir, files[..i]) == Ok(mdFiles)
    {
      MarkdownFilesInStep(fs, dir, files, i, mdFiles);
      var fullPath := JoinSegment(dir, files[i].name);
      JoinSegmentName(dir, files[i].name);
      if files[i].kind == Directory {
        DirsUnderShrink(fs, dir, files[i].name);
        var sub := GetAllMarkdownFiles(fs, fullPath);
        if sub.Err? {
          MarkdownFilesInErr(fs, dir, files, i + 1);
          assert files[..|files|] == files;
          return Err(sub.error);
        }
        mdFiles := mdFiles + sub.value;
      } else if IsMarkdownName(files[i].name) {
        mdFiles := mdFiles + [fullPath];
      }
    }
    assert files[..|files|] == files;
    r := Ok(mdFiles);
  }

  /** One entry of the loop, once the entries before it have been walked. */
  lemma MarkdownFilesInStep(fs: FileSystem, dir: Path, es: seq<DirEntry>, i: nat, acc: seq<Path>)
    requires dir in fs.dirs && i < |es|
    requires MarkdownFilesIn(fs, dir, es[..i]) == Ok(acc)
    ensures MarkdownFilesIn(fs, dir, es[..i + 1])
         == if es[i].kind == Directory then
              (match MarkdownFiles(fs, dir + [es[i].name])
               case Err(err) => Err(err)
               case Ok(sub) => Ok(acc + sub))
            else if IsMarkdownName(es[i].name) then Ok(acc + [dir + [es[i].name]])
            else Ok(acc)
  {
    assert es[..i + 1][..i] == es[..i];
  }

  /** A walk that has failed stays failed with the same error. */
  lemma {:induction false} MarkdownFilesInErr(fs: FileSystem, dir: Path, es: seq<DirEntry>, k: nat)
    requires dir in fs.dirs && k <= |es|
    requires MarkdownFilesIn(fs, dir, es[..k]).Err?
    ensures MarkdownFilesIn(fs, dir, es) == MarkdownFilesIn(fs, dir, es[..k])
    decreases |es|
  {
    if k < |es| {
      var init := es[..|es| - 1];
      assert init[..k] == es[..k];
      MarkdownFilesInErr(fs, dir, init, k);
    } else {
      assert es[..k] == es;
    }
  }

  /** `f` names a markdown file listed in its parent directory. */
  predicate ListedMarkdownFile(fs: FileSystem, f: Path)
  {
    |f| > 0 && Dirname(f) in fs.dirs
    && exists e :: e in fs.dirs[Dirname(f)] && e.name == f[|f| - 1] && IsMarkdownFile(e)
  }

  /** Every path the walk returns lies strictly below `dir` and is a markdown file
      listed in its own directory. */
  lemma {:induction false} MarkdownFilesSound(fs: FileSystem, dir: Path, f: Path)
    requires MarkdownFiles(fs, dir).Ok? && f in MarkdownFiles(fs, dir).value
    ensures dir < f && ListedMarkdownFile(fs, f)
    decreases |DirsUnder(fs, dir)|, 1
  {
    MarkdownFilesInSound(fs, dir, fs.dirs[dir], f);
  }

  /** The same for part of a listing, and the segment below `dir` is the name of one of its entries. */
  lemma {:induction false} MarkdownFilesInSound(fs: FileSystem, dir: Path, es: seq<DirEntry>, f: Path)
    requires dir in fs.dirs && forall e :: e in es ==> e in fs.dirs[dir]
    requires MarkdownFilesIn(fs, dir, es).Ok? && f in MarkdownFilesIn(fs, dir, es).value
    ensures dir < f && ListedMarkdownFile(fs, f)
    ensures exists e :: e in es && e.name == f[|dir|]
    decreases |DirsUnder(fs, dir)|, 0, |es|
  {
    var init, e := es[..|es| - 1], es[|es| - 1];
    var acc := MarkdownFilesIn(fs, dir, init).value;
    if f in acc {
      MarkdownFilesInSound(fs, dir, init, f);
      var e' :| e' in init && e'.name == f[|dir|];
      assert e' in es;
    } else if e.kind == Directory {
      DirsUnderShrink(fs, dir, e.name);
      var child := dir + [e.name];
      MarkdownFilesSound(fs, child, f);
      assert f[|dir|] == child[|dir|];
    } else {
      assert f == dir + [e.name];
      assert Dirname(f) == dir;
    }
  }

  /** In a tree whose directories never repeat a name, the walk never returns a file twice. */
  lemma {:induction false} MarkdownFilesUnique(fs: FileSystem, dir: Path)
    requires WellFormed(fs) && MarkdownFiles(fs, dir).Ok?
    ensures NoDuplicates(MarkdownFiles(fs, dir).value)
    decreases |DirsUnder(fs, dir)|, 1
  {
    MarkdownFilesInUnique(fs, dir, fs.dirs[dir]);
  }

  lemma {:induction false} MarkdownFilesInUnique(fs: FileSystem, dir: Path, es: seq<DirEntry>)
    requires WellFormed(fs) && dir in fs.dirs && UniqueNames(es)
    requires forall e :: e in es ==> e in fs.dirs[dir]
    requires MarkdownFilesIn(fs, dir, es).Ok?
    ensures NoDuplicates(MarkdownFilesIn(fs, dir, es).value)
    decreases |DirsUnder(fs, dir)|, 0, |es|
  {
    if |es| > 0 {
      var init, e := es[..|es| - 1], es[|es| - 1];
      assert UniqueNames(init) by {
        forall i, j | 0 <= i < j < |init| ensures init[i].name != init[j].name {
          assert init[i] == es[i] && init[j] == es[j];
        }
      }
      MarkdownFilesInUnique(fs, dir, init);
      var acc := MarkdownFilesIn(fs, dir, init).value;
      var added := MarkdownFilesIn(fs, dir, es).value[|acc|..];
      assert MarkdownFilesIn(fs, dir, es).value == acc + added;
      forall f | f in added ensures |dir| < |f| && f[|dir|] == e.name {
        if e.kind == Directory {
          DirsUnderShrink(fs, dir, e.name);
          MarkdownFilesSound(fs, dir + [e.name], f);
          assert f[|dir|] == (dir + [e.name])[|dir|];
        }
      }
      forall f | f in acc ensures f !in added {
        MarkdownFilesInSound(fs, dir, init, f);
        var e' :| e' in init && e'.name == f[|dir|];
        var k :| 0 <= k < |init| && init[k] == e';
        assert es[k] == e';
      }
      if e.kind == Directory {
        DirsUnderShrink(fs, dir, e.name);
        MarkdownFilesUnique(fs, dir + [e.name]);
      }
      ConcatNoDuplicates(acc, added);
    }
  }

  /** Nothing is missed: every markdown file listed in `dir` is returned, and so is
      everything the walk of each subdirectory returns. */
  lemma MarkdownFilesComplete(fs: FileSystem, dir: Path)
    requires MarkdownFiles(fs, dir).Ok?
    ensures var files := MarkdownFiles(fs, dir).value;
      (forall e :: e in fs.dirs[dir] && IsMarkdownFile(e) ==> dir + [e.name] in files)
      && (forall e :: e in fs.dirs[dir] && e.kind == Directory ==>
            MarkdownFiles(fs, dir + [e.name]).Ok?
            && forall f :: f in MarkdownFiles(fs, dir + [e.name]).value ==> f in files)
  {
    MarkdownFilesInComplete(fs, dir, fs.dirs[dir]);
  }

  lemma {:induction false} MarkdownFilesInComplete(fs: FileSystem, dir: Path, es: seq<DirEntry>)
    requires dir in fs.dirs && MarkdownFilesIn(fs, dir, es).Ok?
    ensures var files := MarkdownFilesIn(fs, dir, es).value;
      (forall e :: e in es && IsMarkdownFile(e) ==> dir + [e.name] in files)
      && (forall e :: e in es && e.kind == Directory ==>
            MarkdownFiles(fs, dir + [e.name]).Ok?
            && forall f :: f in MarkdownFiles(fs, dir + [e.name]).value ==> f in files)
    decreases |es|
  {
    if |es| > 0 {
      var init, last := es[..|es| - 1], es[|es| - 1];
      MarkdownFilesInComplete(fs, dir, init);
      var acc := MarkdownFilesIn(fs, dir, init).value;
      var files := MarkdownFilesIn(fs, dir, es).value;
      assert acc <= files;
      forall e | e in es ensures e in init || e == last {
        var k :| 0 <= k < |es| && es[k] == e;
        if k < |es| - 1 { assert init[k] == e; }
      }
    }
  }

  /** An element of `results`: `{ filePath }` for a name match, `{ filePath, description }` for a content match. */
  datatype SearchResult = SearchResult(filePath: Path, description: Option<string>)

  /** The loop stops once this many results have accumulated. */
  const MaxResults := 12

  /** `path.basename(file, '.md').toLowerCase().includes(searchTerm.toLowerCase())`. */
  predicate NameMatches(file: Path, term: string)
  {
    Includes(Lower(BasenameMd(file)), Lower(term))
  }

  /** What one file contributes: a name match is a result without reading the file;
      otherwise the file is read, and a match in its text is a result described as
      "contains <term>". */
  function Classify(fs: FileSystem, file: Path, term: string): (r: Result<Option<SearchResult>, Error>)
    ensures r.Ok? && r.value.Some? ==> r.value.value.filePath == file
  {
    if NameMatches(file, term) then Ok(Some(SearchResult(file, Null)))
    else
      match ReadFile(fs, file)
      case Err(e) => Err(e)
      case Ok(content) =>
        if Includes(Lower(content), Lower(term)) then Ok(Some(SearchResult(file, Some("contains " + term))))
        else Ok(Null)
  }

  /** Every match among `files`, in order, with no limit: the reference the capped loop is measured against. */
  function AllMatches(fs: FileSystem, term: string, files: seq<Path>): Result<seq<SearchResult>, Error>
    decreases |files|
  {
    if |files| == 0 then Ok([])
    else
      match Classify(fs, files[0], term)
      case Err(e) => Err(e)
      case Ok(m) =>
        match AllMatches(fs, term, files[1..])
        case Err(e) => Err(e)
        case Ok(rest) => Ok(Found(m) + rest)
  }

  /** The loop of `searchNotes` over `files`, with `results` gathered so far. */
  function SearchFrom(fs: FileSystem, term: string, files: seq<Path>, results: seq<SearchResult>)
    : Result<seq<SearchResult>, Error>
    requires |results| < MaxResults
    decreases |files|
  {
    if |files| == 0 then Ok(results)
    else
      match Classify(fs, files[0], term)
      case Err(e) => Err(e)
      case Ok(m) =>
        var next := results + Found(m);
        if |next| >= MaxResults then Ok(next) else SearchFrom(fs, term, files[1..], next)
  }

  /** What one classified file adds to the results. */
  function Found(m: Option<SearchResult>): (s: seq<SearchResult>)
    ensures m.Null? ==> s == []
    ensures m.Some? ==> s == [m.value]
  {
    if m.Some? then [m.value] else []
  }

  /** `searchNotes(searchTerm, sidenotesFolderPath)`. */
  function SearchNotesOf(fs: FileSystem, root: Path, term: string): Result<seq<SearchResult>, Error>
  {
    match MarkdownFiles(fs, root)
    case Err(e) => Err(e)
    case Ok(files) => SearchFrom(fs, term, files, [])
  }

  method SearchNotes(fs: FileSystem, root: Path, searchTerm: string) returns (r: Result<seq<SearchResult>, Error>)
    ensures r == SearchNotesOf(fs, root, searchTerm)
  {
    var results: seq<SearchResult> := [];
    var all := GetAllMarkdownFiles(fs, root);
    if all.Err? {
      return Err(all.error);
    }
    var files := all.value;
    for i := 0 to |files|
      invariant |results| < MaxResults
      invariant SearchFrom(fs, searchTerm, files[i..], results) == SearchNotesOf(fs, root, searchTerm)
    {
      SearchFromAt(fs, searchTerm, files, i, results);
      ghost var before := results;
      var file := files[i];
      var fileName := Lower(BasenameMd(file));
      if Includes(fileName, Lower(searchTerm)) {
        results := results + [SearchResult(file, Null)];
      } else {
        var content := ReadFile(fs, file);
        if content.Err? {
          return Err(content.error);
        }
        if Includes(Lower(content.value), Lower(searchTerm)) {
          results := results + [SearchResult(file, Some("contains " + searchTerm))];
        }
      }
      assert results == before + Found(Classify(fs, file, searchTerm).value);
      if |results| >= MaxResults {
        return Ok(results);
      }
    }
    r := Ok(results);
  }

  /** One file of the loop, at position `i`. */
  lemma SearchFromAt(fs: FileSystem, term: string, files: seq<Path>, i: nat, results: seq<SearchResult>)
    requires i < |files| && |results| < MaxResults
    ensures Classify(fs, files[i], term).Err? ==>
      SearchFrom(fs, term, files[i..], results) == Err(Classify(fs, files[i], term).error)
    ensures Classify(fs, files[i], term).Ok? && |results + Found(Classify(fs, files[i], term).value)| >= MaxResults ==>
      SearchFrom(fs, term, files[i..], results) == Ok(results + Found(Classify(fs, files[i], term).value))
    ensures Classify(fs, files[i], term).Ok? && |results + Found(Classify(fs, files[i], term).value)| < MaxResults ==>
      SearchFrom(fs, term, files[i..], results)
        == SearchFrom(fs, term, files[i + 1..], results + Found(Classify(fs, files[i], term).value))
  {
    assert files[i..][0] == files[i] && files[i..][1..] == files[i + 1..];
  }

  /** The files of a list of results, in order. */
  function FilePaths(rs: seq<SearchResult>): (ps: seq<Path>)
    ensures |ps| == |rs| && forall i :: 0 <= i < |rs| ==> ps[i] == rs[i].filePath
  {
    seq(|rs|, i requires 0 <= i < |rs| => rs[i].filePath)
  }

  lemma FilePathsCons(m: SearchResult, rs: seq<SearchResult>)
    ensures FilePaths([m] + rs) == [m.filePath] + FilePaths(rs)
  {
  }

  /** The results of a subsequence of `files` are for files of `files`. */
  lemma FilePathsMembers(rs: seq<SearchResult>, files: seq<Path>)
    requires IsSubsequence(FilePaths(rs), files)
    ensures forall m :: m in rs ==> m.filePath in files
  {
    forall m | m in rs ensures m.filePath in files {
      var j :| 0 <= j < |rs| && rs[j] == m;
      assert FilePaths(rs)[j] == m.filePath;
      SubsequenceMembers(FilePaths(rs), files, m.filePath);
    }
  }

  /** The first `MaxResults` elements of `s`, or all of it when it is shorter. */
  function Capped(s: seq<SearchResult>): (c: seq<SearchResult>)
    ensures |c| <= MaxResults && c <= s
    ensures |s| <= MaxResults ==> c == s
  {
    if |s| <= MaxResults then s else s[..MaxResults]
  }

  /** A file whose name contains the term is a result without its text being read:
      its contents, or whether it can be read at all, change nothing. */
  lemma NameMatchReadsNothing(fs1: FileSystem, fs2: FileSystem, file: Path, term: string)
    requires NameMatches(file, term)
    ensures Classify(fs1, file, term) == Classify(fs2, file, term) == Ok(Some(SearchResult(file, Null)))
  {
  }

  /** A file whose name does not match is read: it fails exactly when it cannot be read, with
      the error of that read, and it is a result, described as containing the term, exactly
      when its text contains the term. */
  lemma ContentMatch(fs: FileSystem, file: Path, term: string)
    requires !NameMatches(file, term)
    ensures Classify(fs, file, term).Err? <==> file !in fs.files
    ensures Classify(fs, file, term).Err? ==> Classify(fs, file, term).error == ReadFile(fs, file).error
    ensures file in fs.files ==>
      (Classify(fs, file, term).value.Some? <==> Includes(Lower(fs.files[file]), Lower(term)))
    ensures Classify(fs, file, term).Ok? && Classify(fs, file, term).value.Some? ==>
      Classify(fs, file, term).value.value.description == Some("contains " + term)
  {
  }

  /** The capped loop returns, after the results already gathered, the matches of the
      uncapped search cut down to `MaxResults`. */
  lemma {:induction false} SearchFromCapped(fs: FileSystem, term: string, files: seq<Path>, results: seq<SearchResult>)
    requires |results| < MaxResults && AllMatches(fs, term, files).Ok?
    ensures SearchFrom(fs, term, files, results) == Ok(Capped(results + AllMatches(fs, term, files).value))
    decreases |files|
  {
    if |files| > 0 {
      var m := Classify(fs, files[0], term).value;
      var rest := AllMatches(fs, term, files[1..]).value;
      var head := Found(m);
      var next := results + head;
      AllMatchesCons(fs, term, files);
      AppendAssoc(results, head, rest);
      assert results + AllMatches(fs, term, files).value == next + rest;
      if |next| < MaxResults {
        assert SearchFrom(fs, term, files, results) == SearchFrom(fs, term, files[1..], next);
        SearchFromCapped(fs, term, files[1..], next);
      } else {
        assert SearchFrom(fs, term, files, results) == Ok(next);
        assert |next| == MaxResults;
        assert (next + rest)[..MaxResults] == next;
        assert Capped(next + rest) == next;
      }
    } else {
      assert results + [] == results;
    }
  }

  /** When the capped loop fails, the uncapped search fails on the same file with the same error. */
  lemma {:induction false} SearchFromErr(fs: FileSystem, term: string, files: seq<Path>, results: seq<SearchResult>)
    requires |results| < MaxResults && SearchFrom(fs, term, files, results).Err?
    ensures AllMatches(fs, term, files) == SearchFrom(fs, term, files, results)
    decreases |files|
  {
    var c := Classify(fs, files[0], term);
    if c.Ok? {
      var next := results + Found(c.value);
      SearchFromErr(fs, term, files[1..], next);
    }
  }

  /** A loop that ends below the cap has looked at every file, so the uncapped search succeeds. */
  lemma {:induction false} SearchFromShort(fs: FileSystem, term: string, files: seq<Path>, results: seq<SearchResult>)
    requires |results| < MaxResults && SearchFrom(fs, term, files, results).Ok?
    requires |SearchFrom(fs, term, files, results).value| < MaxResults
    ensures AllMatches(fs, term, files).Ok?
    decreases |files|
  {
    if |files| > 0 {
      var m := Classify(fs, files[0], term).value;
      var next := results + Found(m);
      SearchFromShort(fs, term, files[1..], next);
    }
  }

  /** Every uncapped match is a file classified as that result. */
  lemma {:induction false} AllMatchesSound(fs: FileSystem, term: string, files: seq<Path>)
    requires AllMatches(fs, term, files).Ok?
    ensures forall m :: m in AllMatches(fs, term, files).value ==> Classify(fs, m.filePath, term) == Ok(Some(m))
    decreases |files|
  {
    if |files| > 0 {
      AllMatchesSound(fs, term, files[1..]);
      var c := Classify(fs, files[0], term).value;
      var rest := AllMatches(fs, term, files[1..]).value;
      AllMatchesCons(fs, term, files);
      forall m | m in Found(c) + rest ensures Classify(fs, m.filePath, term) == Ok(Some(m)) {
        if m !in rest {
          assert m == c.value;
        }
      }
    }
  }

  /** The files of the uncapped matches appear in the order of `files`. */
  lemma {:induction false} AllMatchesOrdered(fs: FileSystem, term: string, files: seq<Path>)
    requires AllMatches(fs, term, files).Ok?
    ensures IsSubsequence(FilePaths(AllMatches(fs, term, files).value), files)
    decreases |files|
  {
    if |files| > 0 {
      AllMatchesOrdered(fs, term, files[1..]);
      var c := Classify(fs, files[0], term).value;
      var rest := AllMatches(fs, term, files[1..]).value;
      AllMatchesCons(fs, term, files);
      assert [files[0]] + files[1..] == files;
      if c.Some? {
        assert AllMatches(fs, term, files).value == [c.value] + rest;
        assert c.value.filePath == files[0];
        FilePathsCons(c.value, rest);
        SubsequenceCons(FilePaths(rest), files[1..], files[0]);
      } else {
        assert AllMatches(fs, term, files).value == rest;
        SubsequenceSkip(FilePaths(rest), files[1..], files[0]);
      }
    }
  }

  /** An uncapped search that succeeds has read every file it needed, and every file that
      classifies as a result is among its matches. */
  lemma {:induction false} AllMatchesComplete(fs: FileSystem, term: string, files: seq<Path>)
    requires AllMatches(fs, term, files).Ok?
    ensures forall f :: f in files ==> Classify(fs, f, term).Ok?
    ensures forall f :: f in files && Classify(fs, f, term).value.Some? ==>
      Classify(fs, f, term).value.value in AllMatches(fs, term, files).value
    decreases |files|
  {
    if |files| > 0 {
      AllMatchesComplete(fs, term, files[1..]);
      AllMatchesCons(fs, term, files);
      forall f | f in files ensures f == files[0] || f in files[1..] {
        var k :| 0 <= k < |files| && files[k] == f;
        if k > 0 { assert files[1..][k - 1] == f; }
      }
    }
  }

  /** With the empty term every name matches: each file is a result with no description. */
  lemma {:induction false} AllMatchesEmptyTerm(fs: FileSystem, files: seq<Path>)
    ensures AllMatches(fs, "", files) == Ok(NameResults(files))
    decreases |files|
  {
    if |files| > 0 {
      assert Includes(Lower(BasenameMd(files[0])), Lower(""));
      assert Classify(fs, files[0], "") == Ok(Some(SearchResult(files[0], Null)));
      AllMatchesEmptyTerm(fs, files[1..]);
      AllMatchesCons(fs, "", files);
      assert [SearchResult(files[0], Null)] + NameResults(files[1..]) == NameResults(files);
    }
  }

  /** Each of `files` as a name match. */
  function NameResults(files: seq<Path>): (rs: seq<SearchResult>)
    ensures |rs| == |files| && forall i :: 0 <= i < |files| ==> rs[i] == SearchResult(files[i], Null)
  {
    seq(|files|, i requires 0 <= i < |files| => SearchResult(files[i], Null))
  }

  /** Whatever the capped loop returns is what it had gathered followed by all the matches
      of some prefix of the files, and of all the files when it stops below the cap. */
  lemma {:induction false} SearchFromPrefix(fs: FileSystem, term: string, files: seq<Path>, results: seq<SearchResult>)
    returns (k: nat)
    requires |results| < MaxResults && SearchFrom(fs, term, files, results).Ok?
    ensures k <= |files| && AllMatches(fs, term, files[..k]).Ok?
    ensures SearchFrom(fs, term, files, results).value == results + AllMatches(fs, term, files[..k]).value
    ensures |SearchFrom(fs, term, files, results).value| < MaxResults ==> k == |files|
    decreases |files|
  {
    if |files| == 0 {
      k := 0;
      assert files[..0] == [];
    } else {
      var m := Classify(fs, files[0], term).value;
      var head := Found(m);
      var next := results + head;
      if |next| >= MaxResults {
        k := 1;
        assert files[..1][0] == files[0] && files[..1][1..] == [];
        AllMatchesCons(fs, term, files[..1]);
      } else {
        assert SearchFrom(fs, term, files, results) == SearchFrom(fs, term, files[1..], next);
        var k' := SearchFromPrefix(fs, term, files[1..], next);
        k := k' + 1;
        var rest := AllMatches(fs, term, files[1..][..k']).value;
        AllMatchesPrefixCons(fs, term, files, k');
        AppendAssoc(results, head, rest);
      }
    }
  }

  /** The matches of the first `k + 1` files are those of the first file and then those of the next `k`. */
  lemma AllMatchesPrefixCons(fs: FileSystem, term: string, files: seq<Path>, k: nat)
    requires k < |files| && Classify(fs, files[0], term).Ok? && AllMatches(fs, term, files[1..][..k]).Ok?
    ensures AllMatches(fs, term, files[..k + 1])
         == Ok(Found(Classify(fs, files[0], term).value) + AllMatches(fs, term, files[1..][..k]).value)
  {
    var pre := files[..k + 1];
    assert pre[0] == files[0] && pre[1..] == files[1..][..k];
    AllMatchesCons(fs, term, pre);
  }

  /** One step of the uncapped search, when the first file and the rest succeed. */
  lemma AllMatchesCons(fs: FileSystem, term: string, files: seq<Path>)
    requires |files| > 0 && Classify(fs, files[0], term).Ok? && AllMatches(fs, term, files[1..]).Ok?
    ensures AllMatches(fs, term, files)
         == Ok(Found(Classify(fs, files[0], term).value) + AllMatches(fs, term, files[1..]).value)
  {
  }

  /** What the capped loop over `files` promises: at most `MaxResults` results, each a file of
      `files` classified as that result, in the order of `files`. */
  lemma SearchFromSound(fs: FileSystem, term: string, files: seq<Path>)
    requires SearchFrom(fs, term, files, []).Ok?
    ensures var r := SearchFrom(fs, term, files, []).value;
      |r| <= MaxResults
      && (forall m :: m in r ==> m.filePath in files && Classify(fs, m.filePath, term) == Ok(Some(m)))
      && IsSubsequence(FilePaths(r), files)
  {
    var r := SearchFrom(fs, term, files, []).value;
    SearchFromBound(fs, term, files, []);
    var k := SearchFromPrefix(fs, term, files, []);
    var pre := files[..k];
    assert r == AllMatches(fs, term, pre).value by {
      assert [] + AllMatches(fs, term, pre).value == AllMatches(fs, term, pre).value;
    }
    AllMatchesSound(fs, term, pre);
    AllMatchesOrdered(fs, term, pre);
    assert files == pre + files[k..];
    SubsequenceAppend(FilePaths(r), pre, files[k..]);
    FilePathsMembers(r, files);
  }

  /** When fewer than `MaxResults` come back, every file of `files` that classifies as a result
      is among them. */
  lemma SearchFromComplete(fs: FileSystem, term: string, files: seq<Path>)
    requires SearchFrom(fs, term, files, []).Ok? && |SearchFrom(fs, term, files, []).value| < MaxResults
    ensures forall f :: f in files && Classify(fs, f, term).Ok? && Classify(fs, f, term).value.Some? ==>
      Classify(fs, f, term).value.value in SearchFrom(fs, term, files, []).value
  {
    SearchFromShort(fs, term, files, []);
    SearchFromCapped(fs, term, files, []);
    var all := AllMatches(fs, term, files).value;
    assert [] + all == all;
    AllMatchesComplete(fs, term, files);
  }

  /** What `searchNotes` promises: the capped loop's guarantees over the walk of the notes
      directory, and in a tree whose directories never repeat a name, no file twice. */
  lemma SearchNotesSpec(fs: FileSystem, root: Path, term: string)
    requires SearchNotesOf(fs, root, term).Ok?
    ensures MarkdownFiles(fs, root).Ok?
    ensures var files, r := MarkdownFiles(fs, root).value, SearchNotesOf(fs, root, term).value;
      |r| <= MaxResults
      && (forall m :: m in r ==> m.filePath in files && Classify(fs, m.filePath, term) == Ok(Some(m)))
      && IsSubsequence(FilePaths(r), files)
      && (WellFormed(fs) ==> NoDuplicates(FilePaths(r)))
      && (|r| < MaxResults ==>
            forall f :: f in files && Classify(fs, f, term).Ok? && Classify(fs, f, term).value.Some? ==>
              Classify(fs, f, term).value.value in r)
  {
    var files := MarkdownFiles(fs, root).value;
    SearchFromSound(fs, term, files);
    if |SearchNotesOf(fs, root, term).value| < MaxResults {
      SearchFromComplete(fs, term, files);
    }
    if WellFormed(fs) {
      MarkdownFilesUnique(fs, root);
      SubsequenceNoDuplicates(FilePaths(SearchNotesOf(fs, root, term).value), files);
    }
  }

  /** The loop never gathers more than `MaxResults`, and keeps what it had. */
  lemma {:induction false} SearchFromBound(fs: FileSystem, term: string, files: seq<Path>, results: seq<SearchResult>)
    requires |results| < MaxResults && SearchFrom(fs, term, files, results).Ok?
    ensures results <= SearchFrom(fs, term, files, results).value
    ensures |SearchFrom(fs, term, files, results).value| <= MaxResults
    decreases |files|
  {
    if |files| > 0 {
      var m := Classify(fs, files[0], term).value;
      var next := results + Found(m);
      if |next| < MaxResults {
        SearchFromBound(fs, term, files[1..], next);
      }
    }
  }

  /** With the empty term the search returns the first `MaxResults` markdown files of the walk,
      all as name matches, and reads no file. */
  lemma SearchNotesEmptyTerm(fs: FileSystem, root: Path)
    requires MarkdownFiles(fs, root).Ok?
    ensures SearchNotesOf(fs, root, "") == Ok(Capped(NameResults(MarkdownFiles(fs, root).value)))
  {
    var files := MarkdownFiles(fs, root).value;
    AllMatchesEmptyTerm(fs, files);
    SearchFromCapped(fs, "", files, []);
    assert [] + NameResults(files) == NameResults(files);
  }

  /** An entry of the quick pick: its `label` (the note's name), the match description, the path shown
      relative to the notes directory, and the file to open. */
  datatype PickItem = PickItem(caption: string, description: Option<string>, detail: string, filePath: Path)

  /** The `searchResults.map(...)` of commands/quickSearch.js. */
  function PickItems(root: Path, results: seq<SearchResult>): (items: seq<PickItem>)
    ensures |items| == |results|
  {
    seq(|results|, i requires 0 <= i < |results| =>
      PickItem(BasenameMd(results[i].filePath), results[i].description,
               Relative(root, results[i].filePath), results[i].filePath))
  }

  /** Each entry keeps its result's file and description, is labelled with the note's name, and
      its detail, joined back onto the notes directory, is the file it opens; for a file below
      the notes directory the detail is the file's own segments under it. */
  lemma PickItemsSpec(root: Path, results: seq<SearchResult>)
    ensures var items := PickItems(root, results);
      forall i :: 0 <= i < |results| ==>
        items[i].filePath == results[i].filePath
        && items[i].description == results[i].description
        && items[i].caption == BasenameMd(results[i].filePath)
        && Join(root, items[i].detail) == results[i].filePath
        && (root < results[i].filePath ==> Split(items[i].detail) == results[i].filePath[|root|..])
  {
    forall i | 0 <= i < |results|
      ensures Join(root, Relative(root, results[i].filePath)) == results[i].filePath
      ensures root < results[i].filePath ==> Split(Relative(root, results[i].filePath)) == results[i].filePath[|root|..]
    {
      RelativeRoundTrip(root, results[i].filePath);
      RelativePartsSplit(root, results[i].filePath);
      if root < results[i].filePath {
        RelativePartsUnder(root, results[i].filePath);
      }
    }
  }
}
