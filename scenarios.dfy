/** Worked cases of the exporter's rules, on concrete records. */
module Scenarios {
  import opened Wrappers
  import opened Text
  import opened IsoDate
  import opened Articles
  import opened Exporter

  function Collected(url: string, date: string): Entry
  {
    Entry("", url, date, "", "", "")
  }

  function Record(url: string, createdAt: string): RawArticle
  {
    RawArticle(Some(url), None, Some(createdAt), None, None, None)
  }

  lemma SortDescCons(x: Entry, s: seq<Entry>)
    ensures SortDesc([x] + s) == Insert(x, SortDesc(s))
  {
    assert ([x] + s)[1..] == s;
  }

  /** Two entries whose keys rank second and first are swapped. */
  lemma SortTwo(b: Entry, c: Entry)
    requires Less(SortKey(b), SortKey(c))
    ensures SortDesc([b, c]) == [c, b]
  {
    SortDescCons(c, []);
    assert [c] + [] == [c];
    SortDescCons(b, [c]);
    assert [b] + [c] == [b, c];
    InsertBehind(b, [c]);
    assert [c][1..] == [];
    InsertAhead(b, []);
  }

  /** Three entries whose keys rank first, third and second come out in key order. */
  lemma SortThree(a: Entry, b: Entry, c: Entry)
    requires Less(SortKey(c), SortKey(a)) && Less(SortKey(b), SortKey(c))
    ensures SortDesc([a, b, c]) == [a, c, b]
  {
    LessAsymmetric(SortKey(c), SortKey(a));
    SortTwo(b, c);
    SortDescCons(a, [b, c]);
    assert [a] + [b, c] == [a, b, c];
    InsertAhead(a, [c, b]);
  }

  /** Entries collected on the 3rd, 1st and 2nd of January come out 3rd, 2nd, 1st. */
  lemma NewestFirstExample()
    ensures SortDesc([Collected("a", "2024-01-03"), Collected("b", "2024-01-01"), Collected("c", "2024-01-02")])
         == [Collected("a", "2024-01-03"), Collected("c", "2024-01-02"), Collected("b", "2024-01-01")]
  {
    var d1, d2, d3 := "2024-01-01", "2024-01-02", "2024-01-03";
    assert d1 == "2024-01-0" + "1" && d2 == "2024-01-0" + "2" && d3 == "2024-01-0" + "3";
    LessAfterCommonPrefix("2024-01-0", "1", "2");
    LessAfterCommonPrefix("2024-01-0", "2", "3");
    var a, b, c := Collected("a", d3), Collected("b", d1), Collected("c", d2);
    assert SortKey(a) == d3 && SortKey(b) == d1 && SortKey(c) == d2;
    SortThree(a, b, c);
  }

  /** Strings that agree up to one character are ordered by that character. */
  lemma {:induction false} LessAfterCommonPrefix(p: string, x: string, y: string)
    requires x != [] && y != [] && x[0] < y[0]
    ensures Less(p + x, p + y)
  {
    if p != [] {
      assert (p + x)[1..] == p[1..] + x && (p + y)[1..] == p[1..] + y;
      LessAfterCommonPrefix(p[1..], x, y);
    }
  }

  /** A record whose date is not a date is kept, not rejected. */
  lemma UnparseableDateKept(currentYear: int)
    ensures NewEntries({}, [Record("u", "not-a-date")], currentYear) == [ToEntry(Record("u", "not-a-date"))]
  {
    NotADateRejected();
    assert Prefix10("not-a-date") == "not-a-date";
    assert [Record("u", "not-a-date")][..0] == [];
  }

  /** A record collected in an earlier year is excluded from this year's store. */
  lemma PriorYearExcluded()
    ensures NewEntries({}, [Record("u", "2023-06-01T08:30:00")], 2024) == []
  {
    var date, time := "2023-06-01", "T08:30:00";
    assert date + time == "2023-06-01T08:30:00";
    assert (date + time)[..10] == date;
    assert Prefix10("2023-06-01T08:30:00") == date;
    assert date[0..4] == "2023" && date[5..7] == "06" && date[8..10] == "01";
    DigitsValueFour("2023");
    DigitsValueTwo("06");
    DigitsValueTwo("01");
    assert ParseIsoDate(date) == Some(Date(2023, 6, 1));
    assert !InYear("2023-06-01T08:30:00", "", 2024);
    assert [Record("u", "2023-06-01T08:30:00")][..0] == [];
  }

  /** The same record twice in one batch is stored once. */
  lemma DuplicateInBatchStoredOnce(a: RawArticle, currentYear: int)
    requires Get(a.url) != "" && InYear(Get(a.createdAt), Get(a.publicationDate), currentYear)
    ensures NewEntries({}, [a, a], currentYear) == [ToEntry(a)]
  {
    assert [a, a][..1] == [a] && [a][..0] == [];
    UrlSetSingleton(ToEntry(a));
  }

  /** A year's store of entries is archived whole and the store restarts empty
      for the next year. */
  method YearRollover(dir: string, batch: seq<RawArticle>)
  {
    var store := Path(dir, "articles.json");
    var exporter := new JsonExporter(store, map[]);
    var written := exporter.Export(batch, 2024, "2024-12-31T23:59:59Z");
    var doc := ExportedDocument([], batch, 2024, "2024-12-31T23:59:59Z");
    assert exporter.files[store] == Json(doc);
    DefaultArchivePaths(store, 2024, 2024);
    var r := exporter.ArchiveYear(2024, None, "2025-01-01T00:00:00Z");
    var archive := DefaultArchivePath(store, 2024);
    assert r == Success(archive);
    assert exporter.files[archive] == Json(doc);
    assert |Load(Some(exporter.files[archive]))| == doc.meta.value.totalArticles;
    assert exporter.files[store].doc.meta == Some(Meta(2025, 0, "2025-01-01T00:00:00Z", 0));
    assert Load(exporter.Stored()) == [];
  }
}
