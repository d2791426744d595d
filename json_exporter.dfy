/** The cumulative per-year article store of `JSONExporter`: merging a batch
    into the store and rotating a finished year into an archive file.
    The file system is a map from paths to file contents; the clock is two
    parameters, the current year and the `last_updated` stamp. */
module Exporter {
  import opened Wrappers
  import opened Text
  import opened IsoDate
  import opened Articles

  /** The `meta` block of a store document. */
  datatype Meta = Meta(year: int, totalArticles: int, lastUpdated: string, newThisRun: int)

  /** A JSON object with the keys `meta` and `articles`, either of which may be missing. */
  datatype Document = Document(meta: Option<Meta>, articles: Option<seq<Entry>>)

  /** What a file holds: text that is not valid JSON, or a JSON document. */
  datatype FileContent = Malformed | Json(doc: Document)

  /** A file location: its directory and its file name. */
  datatype Path = Path(dir: string, name: string)

  /** The `json.JSONDecodeError` that `archive_year` lets escape. */
  datatype ArchiveError = InvalidJson

  /** `_load_existing`: the stored entries, or none when the file is missing, is
      not valid JSON or has no `articles` key. Loading never fails. */
  function Load(file: Option<FileContent>): (r: seq<Entry>)
    ensures r != [] ==> exists doc :: file == Some(Json(doc)) && doc.articles == Some(r)
    ensures forall doc | file == Some(Json(doc)) && doc.articles.Some? :: r == doc.articles.value
  {
    match file
    case None => []
    case Some(Malformed) => []
    case Some(Json(doc)) => doc.articles.GetOr([])
  }

  /** The document `export` writes, given the entries it loaded. */
  function ExportedDocument(loaded: seq<Entry>, batch: seq<RawArticle>, currentYear: int, lastUpdated: string)
    : (doc: Document)
    ensures doc.meta.Some? && doc.articles.Some?
    ensures doc.meta.value.year == currentYear && doc.meta.value.lastUpdated == lastUpdated
    ensures doc.meta.value.totalArticles == |doc.articles.value|
    ensures doc.meta.value.newThisRun == |NewEntries(UrlSet(loaded), batch, currentYear)|
    ensures |doc.articles.value| == |loaded| + doc.meta.value.newThisRun
  {
    var added := NewEntries(UrlSet(loaded), batch, currentYear);
    var existing := SortDesc(loaded + added);
    Document(Some(Meta(currentYear, |existing|, lastUpdated, |added|)), Some(existing))
  }

  /** The written list is the loaded entries followed by the new ones, put in
      newest-first order by a stable sort. Stored entries are kept as they are,
      whatever their year. */
  lemma ExportOrder(loaded: seq<Entry>, batch: seq<RawArticle>, currentYear: int, lastUpdated: string)
    ensures var written := ExportedDocument(loaded, batch, currentYear, lastUpdated).articles.value;
            var merged := loaded + NewEntries(UrlSet(loaded), batch, currentYear);
            && multiset(written) == multiset(merged)
            && (forall e | e in loaded :: e in written)
            && SortedDesc(written)
            && (forall k :: WithKey(written, k) == WithKey(merged, k))
  {
    var merged := loaded + NewEntries(UrlSet(loaded), batch, currentYear);
    var written := SortDesc(merged);
    SortDescSorted(merged);
    forall k ensures WithKey(written, k) == WithKey(merged, k) {
      SortDescStable(merged, k);
    }
    forall e | e in loaded ensures e in written {
      assert e in multiset(merged);
    }
  }

  /** If the store held unique URLs, so does what `export` writes, and its URLs
      are the stored ones plus those of the new entries. */
  lemma ExportUniqueUrls(loaded: seq<Entry>, batch: seq<RawArticle>, currentYear: int, lastUpdated: string)
    requires UniqueUrls(loaded)
    ensures var written := ExportedDocument(loaded, batch, currentYear, lastUpdated).articles.value;
            && UniqueUrls(written)
            && UrlSet(written) == UrlSet(loaded) + UrlSet(NewEntries(UrlSet(loaded), batch, currentYear))
  {
    var added := NewEntries(UrlSet(loaded), batch, currentYear);
    UniqueUrlsConcat(loaded, added);
    UrlSetConcat(loaded, added);
    SortDescUniqueUrls(loaded + added);
  }

  /** Exporting the same batch a second time in the same year adds nothing and
      writes the same list again. */
  lemma ExportAgainAddsNothing(loaded: seq<Entry>, batch: seq<RawArticle>, currentYear: int, first: string, second: string)
    ensures var once := ExportedDocument(loaded, batch, currentYear, first).articles.value;
            var twice := ExportedDocument(once, batch, currentYear, second);
            twice.meta.value.newThisRun == 0 && twice.articles.value == once
  {
    var seen := UrlSet(loaded);
    var added := NewEntries(seen, batch, currentYear);
    var once := SortDesc(loaded + added);
    UrlSetConcat(loaded, added);
    UrlSetOfPermutation(loaded + added, once);
    NewEntriesAgain(seen, UrlSet(once), batch, currentYear);
    assert once + [] == once;
    SortDescSorted(loaded + added);
    SortDescOfSorted(once);
  }

  /** Reading back what `export` wrote yields the written list, as many entries
      as `total_articles` says. */
  lemma LoadAfterExport(loaded: seq<Entry>, batch: seq<RawArticle>, currentYear: int, lastUpdated: string)
    ensures var doc := ExportedDocument(loaded, batch, currentYear, lastUpdated);
            && Load(Some(Json(doc))) == doc.articles.value
            && |Load(Some(Json(doc)))| == doc.meta.value.totalArticles
  {
  }

  /** The archive file `articles_{year}.json` next to the store. */
  function DefaultArchivePath(output: Path, year: int): Path
  {
    Path(output.dir, "articles_" + IntToDecimal(year) + ".json")
  }

  /** Where `archive_year` writes: the given path, or the default one. */
  function ArchiveDestination(output: Path, year: int, archivePath: Option<Path>): Path
  {
    archivePath.GetOr(DefaultArchivePath(output, year))
  }

  /** Each year has its own default archive file, in the store's directory and
      distinct from a store named `articles.json`. */
  lemma DefaultArchivePaths(output: Path, year: int, other: int)
    ensures DefaultArchivePath(output, year).dir == output.dir
    ensures output.name == "articles.json" ==> DefaultArchivePath(output, year) != output
    ensures year != other ==> DefaultArchivePath(output, year) != DefaultArchivePath(output, other)
  {
    var a, b := IntToDecimal(year), IntToDecimal(other);
    var na, nb := "articles_" + a + ".json", "articles_" + b + ".json";
    assert na[8] == '_' && "articles.json"[8] == '.';
    if na == nb {
      assert a == na[9..|na| - 5] && b == nb[9..|nb| - 5];
      IntToDecimalInjective(year, other);
    }
  }

  /** The empty store `archive_year` leaves behind for the following year. */
  function ResetDocument(year: int, lastUpdated: string): (doc: Document)
    ensures Load(Some(Json(doc))) == []
    ensures doc.meta == Some(Meta(year + 1, 0, lastUpdated, 0))
  {
    Document(Some(Meta(year + 1, 0, lastUpdated, 0)), Some([]))
  }

  /** `JSONExporter`: the store at `outputPath` within the files it can see. */
  class JsonExporter {
    const outputPath: Path
    var files: map<Path, FileContent>

    /** The store's content, or `None` when the file does not exist. */
    function Stored(): Option<FileContent>
      reads this
    {
      if outputPath in files then Some(files[outputPath]) else None
    }

    constructor (outputPath: Path, files: map<Path, FileContent>)
      ensures this.outputPath == outputPath && this.files == files
    {
      this.outputPath := outputPath;
      this.files := files;
    }

    /** `export`: merge `articles` into the store and rewrite it whole. */
    method Export(articles: seq<RawArticle>, currentYear: int, lastUpdated: string) returns (path: Path)
      modifies this
      ensures path == outputPath
      ensures files == old(files)[outputPath := Json(ExportedDocument(Load(old(Stored())), articles, currentYear, lastUpdated))]
    {
      var existing := Load(Stored());
      ghost var loaded := existing;
      var existingUrls := UrlSet(existing);
      var newCount := 0;
      for i := 0 to |articles|
        invariant existing == loaded + NewEntries(UrlSet(loaded), articles[..i], currentYear)
        invariant existingUrls == UrlSet(existing)
        invariant newCount == |existing| - |loaded|
        modifies {}
      {
        MergeStep(loaded, articles, i, currentYear);
        var article := articles[i];
        var url := Get(article.url);
        if url == "" || url in existingUrls {
          continue;
        }
        var dateCollected := Get(article.createdAt);
        var pubDate := Get(article.publicationDate);
        // The year filter on `date_collected or pub_date`, failing open.
        if !InYear(dateCollected, pubDate, currentYear) {
          continue;
        }
        var entry := Entry(Get(article.title), url, dateCollected, pubDate, Get(article.source), Get(article.fullText));
        assert entry == ToEntry(article);
        existing := existing + [entry];
        existingUrls := existingUrls + {url};
        newCount := newCount + 1;
      }
      assert articles[..|articles|] == articles;
      ghost var added := NewEntries(UrlSet(loaded), articles, currentYear);
      assert existing == loaded + added && newCount == |added|;
      existing := SortDesc(existing);
      var output := Document(Some(Meta(currentYear, |existing|, lastUpdated, newCount)), Some(existing));
      assert output == ExportedDocument(loaded, articles, currentYear, lastUpdated);
      files := files[outputPath := Json(output)];
      path := outputPath;
    }

    /** `archive_year`: copy the store to the archive file, then reset it to an
        empty store for the next year. A missing store is left alone; a store
        that is not valid JSON makes the call fail before anything is written. */
    method ArchiveYear(year: int, archivePath: Option<Path>, lastUpdated: string) returns (r: Result<Path, ArchiveError>)
      modifies this
      ensures old(Stored()).None? ==> files == old(files) && r == Success(ArchiveDestination(outputPath, year, archivePath))
      ensures old(Stored()) == Some(Malformed) ==> files == old(files) && r == Failure(InvalidJson)
      ensures old(Stored()).Some? && old(Stored()).value.Json? ==>
                var dest := ArchiveDestination(outputPath, year, archivePath);
                && r == Success(dest)
                && files == old(files)[dest := old(files[outputPath])][outputPath := Json(ResetDocument(year, lastUpdated))]
                && (dest != outputPath ==> files[dest] == old(files[outputPath]))
                && Load(Stored()) == []
    {
      var dest := if archivePath.Some? then archivePath.value else DefaultArchivePath(outputPath, year);
      if outputPath in files {
        var content := files[outputPath];
        if content.Malformed? {
          return Failure(InvalidJson);
        }
        var data := content.doc;
        files := files[dest := Json(data)];
        var empty := Document(Some(Meta(year + 1, 0, lastUpdated, 0)), Some([]));
        files := files[outputPath := Json(empty)];
      }
      r := Success(dest);
    }
  }
}
