/** Article records, the year filter, the de-duplicating merge of a batch and the
    stable newest-first ordering that `JSONExporter.export` applies. */
module Articles {
  import opened Wrappers
  import opened Text
  import opened IsoDate

  /** One incoming record from the article source; any key may be absent. */
  datatype RawArticle = RawArticle(
    url: Option<string>,
    title: Option<string>,
    createdAt: Option<string>,
    publicationDate: Option<string>,
    source: Option<string>,
    fullText: Option<string>)

  /** One stored entry of the `articles` list. */
  datatype Entry = Entry(
    title: string,
    url: string,
    dateCollected: string,
    publicationDate: string,
    source: string,
    fullText: string)

  /** `article.get(key, '')`. */
  function Get(field: Option<string>): string
  {
    field.GetOr("")
  }

  /** The normalised entry built from an accepted record. */
  function ToEntry(a: RawArticle): (e: Entry)
    ensures e.url == Get(a.url)
    ensures e.title == Get(a.title) && e.source == Get(a.source) && e.fullText == Get(a.fullText)
    ensures e.dateCollected == Get(a.createdAt) && e.publicationDate == Get(a.publicationDate)
  {
    Entry(Get(a.title), Get(a.url), Get(a.createdAt), Get(a.publicationDate), Get(a.source), Get(a.fullText))
  }

  /** `s[:10]`. */
  function Prefix10(s: string): string
  {
    if |s| <= 10 then s else s[..10]
  }

  /** `date_collected or pub_date`: the string the year filter looks at. */
  function DateToCheck(dateCollected: string, publicationDate: string): string
  {
    if dateCollected != "" then dateCollected else publicationDate
  }

  /** The year filter: a record passes unless its date to check is non-empty,
      its first ten characters parse as a date, and that date's year is not
      the current one. */
  predicate InYear(dateCollected: string, publicationDate: string, currentYear: int)
  {
    var d := DateToCheck(dateCollected, publicationDate);
    d == "" || ParseIsoDate(Prefix10(d)).None? || ParseIsoDate(Prefix10(d)).value.year == currentYear
  }

  /** The filter fails open: undated records and records whose date does not
      parse are kept; `publication_date` is only consulted when `created_at`
      is empty. */
  lemma YearFilterFailsOpen(dateCollected: string, publicationDate: string, currentYear: int)
    ensures dateCollected == "" && publicationDate == "" ==> InYear(dateCollected, publicationDate, currentYear)
    ensures ParseIsoDate(Prefix10(DateToCheck(dateCollected, publicationDate))).None? ==>
              InYear(dateCollected, publicationDate, currentYear)
    ensures dateCollected != "" ==>
              InYear(dateCollected, publicationDate, currentYear) == InYear(dateCollected, "", currentYear)
  {
  }

  /** A record whose date to check starts with a valid calendar date is kept
      exactly when that date lies in the current year, whatever follows the
      date (a time of day, say). */
  lemma YearFilterByDate(d: Date, rest: string, publicationDate: string, currentYear: int)
    requires IsValidDate(d)
    ensures InYear(FormatDate(d) + rest, publicationDate, currentYear) <==> d.year == currentYear
    ensures InYear("", FormatDate(d) + rest, currentYear) <==> d.year == currentYear
  {
    var s := FormatDate(d) + rest;
    assert Prefix10(s) == FormatDate(d);
    ParseIsoDateComplete(d);
  }

  /** The set of URLs of a list of entries (`{a['url'] for a in existing}`). */
  function UrlSet(s: seq<Entry>): set<string>
  {
    set e | e in s :: e.url
  }

  lemma UrlSetConcat(s: seq<Entry>, t: seq<Entry>)
    ensures UrlSet(s + t) == UrlSet(s) + UrlSet(t)
  {
    forall u | u in UrlSet(s + t) ensures u in UrlSet(s) + UrlSet(t) {
      var e :| e in s + t && e.url == u;
    }
    forall u | u in UrlSet(s) + UrlSet(t) ensures u in UrlSet(s + t) {
      if u in UrlSet(s) {
        var e :| e in s && e.url == u;
        assert e in s + t;
      } else {
        var e :| e in t && e.url == u;
        assert e in s + t;
      }
    }
  }

  lemma UrlSetSingleton(e: Entry)
    ensures UrlSet([e]) == {e.url}
  {
    assert e in [e];
  }

  lemma UrlSetOfPermutation(s: seq<Entry>, t: seq<Entry>)
    requires multiset(s) == multiset(t)
    ensures UrlSet(s) == UrlSet(t)
  {
    forall u | u in UrlSet(s) ensures u in UrlSet(t) {
      var e :| e in s && e.url == u;
      assert e in multiset(t);
    }
    forall u | u in UrlSet(t) ensures u in UrlSet(s) {
      var e :| e in t && e.url == u;
      assert e in multiset(s);
    }
  }

  /** No two entries share a URL. */
  predicate UniqueUrls(s: seq<Entry>)
  {
    forall i, j | 0 <= i < j < |s| :: s[i].url != s[j].url
  }

  lemma UniqueUrlsAppend(s: seq<Entry>, e: Entry)
    requires UniqueUrls(s) && e.url !in UrlSet(s)
    ensures UniqueUrls(s + [e])
  {
    forall i, j | 0 <= i < j < |s + [e]| ensures (s + [e])[i].url != (s + [e])[j].url {
      if j == |s| {
        assert s[i] in s;
      }
    }
  }

  lemma UniqueUrlsConcat(s: seq<Entry>, t: seq<Entry>)
    requires UniqueUrls(s) && UniqueUrls(t) && UrlSet(s) !! UrlSet(t)
    ensures UniqueUrls(s + t)
  {
    forall i, j | 0 <= i < j < |s + t| ensures (s + t)[i].url != (s + t)[j].url {
      if j < |s| {
        assert (s + t)[i] == s[i] && (s + t)[j] == s[j];
      } else if i >= |s| {
        assert (s + t)[i] == t[i - |s|] && (s + t)[j] == t[j - |s|];
      } else {
        assert (s + t)[i] == s[i] && (s + t)[j] == t[j - |s|];
        assert s[i] in s && t[j - |s|] in t;
        assert s[i].url in UrlSet(s) && t[j - |s|].url in UrlSet(t);
      }
    }
  }

  /** Whether the merge loop accepts record `a`, given the URLs seen so far. */
  predicate Accepts(seen: set<string>, a: RawArticle, currentYear: int)
  {
    Get(a.url) != "" && Get(a.url) !in seen && InYear(Get(a.createdAt), Get(a.publicationDate), currentYear)
  }

  /** The entries the merge loop appends for `batch`, in input order, when the
      URLs in `seen` are already stored: each record is skipped when its URL is
      empty or already seen (stored, or appended earlier in this batch) or it
      fails the year filter. */
  function NewEntries(seen: set<string>, batch: seq<RawArticle>, currentYear: int): (added: seq<Entry>)
    ensures |added| <= |batch|
    ensures UniqueUrls(added) && UrlSet(added) !! seen
    ensures forall e | e in added :: e.url != "" && InYear(e.dateCollected, e.publicationDate, currentYear)
  {
    if batch == [] then []
    else
      var prev := NewEntries(seen, batch[..|batch| - 1], currentYear);
      var a := batch[|batch| - 1];
      if Accepts(seen + UrlSet(prev), a, currentYear) then
        UrlSetConcat(prev, [ToEntry(a)]);
        UniqueUrlsAppend(prev, ToEntry(a));
        prev + [ToEntry(a)]
      else prev
  }

  /** One more record of the batch: it is appended exactly when it is accepted
      against the stored URLs and those appended before it. */
  lemma NewEntriesStep(seen: set<string>, batch: seq<RawArticle>, i: nat, currentYear: int)
    requires i < |batch|
    ensures var prev := NewEntries(seen, batch[..i], currentYear);
            NewEntries(seen, batch[..i + 1], currentYear)
              == if Accepts(seen + UrlSet(prev), batch[i], currentYear) then prev + [ToEntry(batch[i])] else prev
  {
    assert batch[..i + 1][..i] == batch[..i];
  }

  /** One turn of the merge loop over `existing`, the stored entries followed
      by those appended so far: the record is appended exactly when it is
      accepted against the URLs of `existing`, which then gain its URL. */
  lemma MergeStep(loaded: seq<Entry>, batch: seq<RawArticle>, i: nat, currentYear: int)
    requires i < |batch|
    ensures var existing := loaded + NewEntries(UrlSet(loaded), batch[..i], currentYear);
            var e := ToEntry(batch[i]);
            && loaded + NewEntries(UrlSet(loaded), batch[..i + 1], currentYear)
                 == (if Accepts(UrlSet(existing), batch[i], currentYear) then existing + [e] else existing)
            && UrlSet(existing + [e]) == UrlSet(existing) + {e.url}
  {
    var prev := NewEntries(UrlSet(loaded), batch[..i], currentYear);
    NewEntriesStep(UrlSet(loaded), batch, i, currentYear);
    UrlSetConcat(loaded, prev);
    UrlSetConcat(loaded + prev, [ToEntry(batch[i])]);
    UrlSetSingleton(ToEntry(batch[i]));
  }

  /** `ys` with some elements left out, the rest kept in order. */
  predicate Subsequence<T(==)>(xs: seq<T>, ys: seq<T>)
  {
    if xs == [] then true
    else if ys == [] then false
    else Subsequence(xs, ys[..|ys| - 1])
         || (xs[|xs| - 1] == ys[|ys| - 1] && Subsequence(xs[..|xs| - 1], ys[..|ys| - 1]))
  }

  /** Every record of the batch, normalised. */
  function AllEntries(batch: seq<RawArticle>): (r: seq<Entry>)
    ensures |r| == |batch| && forall i | 0 <= i < |batch| :: r[i] == ToEntry(batch[i])
  {
    seq(|batch|, i requires 0 <= i < |batch| => ToEntry(batch[i]))
  }

  /** The appended entries are normalised input records, in input order. */
  lemma AllEntriesSnoc(batch: seq<RawArticle>)
    requires batch != []
    ensures AllEntries(batch) == AllEntries(batch[..|batch| - 1]) + [ToEntry(batch[|batch| - 1])]
  {
  }

  /** Appending the same element to both sides, or to the longer side only,
      keeps a subsequence a subsequence. */
  lemma SubsequenceSnoc<T>(xs: seq<T>, ys: seq<T>, y: T)
    requires Subsequence(xs, ys)
    ensures Subsequence(xs + [y], ys + [y]) && Subsequence(xs, ys + [y])
  {
    assert (xs + [y])[..|xs|] == xs && (ys + [y])[..|ys|] == ys;
  }

  lemma {:induction false} NewEntriesInInputOrder(seen: set<string>, batch: seq<RawArticle>, currentYear: int)
    ensures Subsequence(NewEntries(seen, batch, currentYear), AllEntries(batch))
  {
    if batch != [] {
      var n := |batch| - 1;
      var init := batch[..n];
      NewEntriesInInputOrder(seen, init, currentYear);
      NewEntriesStep(seen, batch, n, currentYear);
      assert batch[..n + 1] == batch;
      AllEntriesSnoc(batch);
      SubsequenceSnoc(NewEntries(seen, init, currentYear), AllEntries(init), ToEntry(batch[n]));
    }
  }

  /** Nothing acceptable is lost: every record with a URL that passes the year
      filter has its URL stored, either from before or by this batch. */
  lemma {:induction false} NewEntriesComplete(seen: set<string>, batch: seq<RawArticle>, currentYear: int, i: nat)
    requires i < |batch| && Get(batch[i].url) != ""
    requires InYear(Get(batch[i].createdAt), Get(batch[i].publicationDate), currentYear)
    ensures Get(batch[i].url) in seen + UrlSet(NewEntries(seen, batch, currentYear))
  {
    var init := batch[..|batch| - 1];
    var prev := NewEntries(seen, init, currentYear);
    UrlSetConcat(prev, [ToEntry(batch[|batch| - 1])]);
    if i < |batch| - 1 {
      NewEntriesComplete(seen, init, currentYear, i);
    }
  }

  /** Appended entries only grow: the entries for a prefix of the batch are a
      prefix of those for the whole batch. */
  lemma {:induction false} NewEntriesPrefix(seen: set<string>, batch: seq<RawArticle>, n: nat, currentYear: int)
    requires n <= |batch|
    ensures UrlSet(NewEntries(seen, batch[..n], currentYear)) <= UrlSet(NewEntries(seen, batch, currentYear))
    decreases |batch|
  {
    if n < |batch| {
      var init := batch[..|batch| - 1];
      assert batch[..n] == init[..n];
      NewEntriesPrefix(seen, init, n, currentYear);
      var prev := NewEntries(seen, init, currentYear);
      UrlSetConcat(prev, [ToEntry(batch[|batch| - 1])]);
      assert NewEntries(seen, batch, currentYear) == prev
          || NewEntries(seen, batch, currentYear) == prev + [ToEntry(batch[|batch| - 1])];
    } else {
      assert batch[..n] == batch;
    }
  }

  /** Merging the same batch again, once its URLs are stored, adds nothing:
      a duplicate is skipped, never used to update a stored entry. */
  lemma {:induction false} NewEntriesAgain(seen: set<string>, stored: set<string>, batch: seq<RawArticle>, currentYear: int)
    requires seen + UrlSet(NewEntries(seen, batch, currentYear)) <= stored
    ensures NewEntries(stored, batch, currentYear) == []
  {
    if batch != [] {
      var init := batch[..|batch| - 1];
      NewEntriesPrefix(seen, batch, |batch| - 1, currentYear);
      assert batch[..|batch| - 1] == init;
      NewEntriesAgain(seen, stored, init, currentYear);
      var prev := NewEntries(seen, init, currentYear);
      var a := batch[|batch| - 1];
      if Accepts(seen + UrlSet(prev), a, currentYear) {
        UrlSetConcat(prev, [ToEntry(a)]);
      }
      assert UrlSet([]) == {};
    }
  }

  // ---------------------------------------------------------------------------
  // Ordering: `existing.sort(key=..., reverse=True)`

  /** `x.get('date_collected') or x.get('publication_date') or ''`. */
  function SortKey(e: Entry): (k: string)
    ensures k == DateToCheck(e.dateCollected, e.publicationDate)
  {
    if e.dateCollected != "" then e.dateCollected
    else if e.publicationDate != "" then e.publicationDate
    else ""
  }

  /** Newest first: no entry's key is smaller than the key of an entry after it. */
  predicate SortedDesc(s: seq<Entry>)
  {
    forall i, j | 0 <= i < j < |s| :: !Less(SortKey(s[i]), SortKey(s[j]))
  }

  /** The entries of `s` whose key is `k`, in their order in `s`. A sort is
      stable exactly when it keeps every such subsequence. */
  function WithKey(s: seq<Entry>, k: string): seq<Entry>
  {
    if s == [] then []
    else (if SortKey(s[0]) == k then [s[0]] else []) + WithKey(s[1..], k)
  }

  lemma {:induction false} WithKeyMembers(s: seq<Entry>, k: string, e: Entry)
    requires e in WithKey(s, k)
    ensures e in s && SortKey(e) == k
  {
    var p := if SortKey(s[0]) == k then [s[0]] else [];
    if e !in p {
      assert e in WithKey(s[1..], k);
      WithKeyMembers(s[1..], k, e);
    }
  }

  /** Place `x` before the first entry whose key is not larger than its own. */
  function Insert(x: Entry, s: seq<Entry>): (r: seq<Entry>)
    ensures |r| == |s| + 1 && multiset(r) == multiset{x} + multiset(s)
  {
    if s != [] && Less(SortKey(x), SortKey(s[0])) then
      assert s == [s[0]] + s[1..];
      [s[0]] + Insert(x, s[1..])
    else [x] + s
  }

  /** Python's stable `list.sort(reverse=True)` on `SortKey`, written as an
      insertion sort. */
  function SortDesc(s: seq<Entry>): (r: seq<Entry>)
    ensures |r| == |s| && multiset(r) == multiset(s)
  {
    if s == [] then []
    else
      assert s == [s[0]] + s[1..];
      Insert(s[0], SortDesc(s[1..]))
  }

  /** An entry whose key is not smaller than the head's may go in front. */
  lemma SortedCons(x: Entry, s: seq<Entry>)
    requires SortedDesc(s) && (s == [] || !Less(SortKey(x), SortKey(s[0])))
    ensures SortedDesc([x] + s)
  {
    var r := [x] + s;
    forall j | 0 < j < |r| ensures !Less(SortKey(x), SortKey(r[j])) {
      var kx, k0, kj := SortKey(x), SortKey(s[0]), SortKey(r[j]);
      assert r[j] == s[j - 1];
      LessTotal(k0, kj);
      if Less(kx, kj) && kj != k0 {
        LessTransitive(kx, kj, k0);
      }
    }
  }

  lemma {:induction false} InsertSorted(x: Entry, s: seq<Entry>)
    requires SortedDesc(s)
    ensures SortedDesc(Insert(x, s))
  {
    if s != [] && Less(SortKey(x), SortKey(s[0])) {
      var rest := Insert(x, s[1..]);
      SortedTail(s);
      InsertSorted(x, s[1..]);
      forall e | e in rest ensures !Less(SortKey(s[0]), SortKey(e)) {
        assert e in multiset(rest);
        if e == x {
          LessAsymmetric(SortKey(x), SortKey(s[0]));
        } else {
          assert e in s[1..];
        }
      }
      SortedBefore(s[0], rest);
    } else {
      SortedCons(x, s);
    }
  }

  /** An entry whose key is not smaller than any key of a sorted list may go
      in front of it. */
  lemma SortedBefore(x: Entry, s: seq<Entry>)
    requires SortedDesc(s) && forall e | e in s :: !Less(SortKey(x), SortKey(e))
    ensures SortedDesc([x] + s)
  {
    var r := [x] + s;
    forall i, j | 0 <= i < j < |r| ensures !Less(SortKey(r[i]), SortKey(r[j])) {
      if i > 0 {
        assert r[i] == s[i - 1] && r[j] == s[j - 1];
      } else {
        assert r[j] in s;
      }
    }
  }

  lemma {:induction false} SortDescSorted(s: seq<Entry>)
    ensures SortedDesc(SortDesc(s))
  {
    if s != [] {
      SortDescSorted(s[1..]);
      InsertSorted(s[0], SortDesc(s[1..]));
    }
  }

  lemma WithKeyCons(e: Entry, s: seq<Entry>, k: string)
    ensures WithKey([e] + s, k) == (if SortKey(e) == k then [e] else []) + WithKey(s, k)
  {
    assert ([e] + s)[1..] == s;
  }

  lemma WithKeyOfHead(s: seq<Entry>)
    requires s != []
    ensures WithKey(s, SortKey(s[0])) != []
  {
    WithKeyCons(s[0], s[1..], SortKey(s[0]));
    assert s == [s[0]] + s[1..];
  }

  lemma InsertBehind(x: Entry, s: seq<Entry>)
    requires s != [] && Less(SortKey(x), SortKey(s[0]))
    ensures Insert(x, s) == [s[0]] + Insert(x, s[1..])
  {
  }

  lemma InsertAhead(x: Entry, s: seq<Entry>)
    requires s == [] || !Less(SortKey(x), SortKey(s[0]))
    ensures Insert(x, s) == [x] + s
  {
  }

  /** Putting an entry with another key in front of both sides keeps an
      equation between key subsequences. */
  lemma WithKeyBehind(head: Entry, x: Entry, rest: seq<Entry>, tail: seq<Entry>, k: string)
    requires SortKey(x) != SortKey(head)
    requires WithKey(rest, k) == (if SortKey(x) == k then [x] else []) + WithKey(tail, k)
    ensures WithKey([head] + rest, k) == (if SortKey(x) == k then [x] else []) + WithKey([head] + tail, k)
  {
    WithKeyCons(head, rest, k);
    WithKeyCons(head, tail, k);
    if SortKey(head) == k {
      assert WithKey([head] + rest, k) == [head] + WithKey(tail, k);
    }
  }

  lemma {:induction false} InsertWithKey(x: Entry, s: seq<Entry>, k: string)
    ensures WithKey(Insert(x, s), k) == (if SortKey(x) == k then [x] else []) + WithKey(s, k)
  {
    if s != [] && Less(SortKey(x), SortKey(s[0])) {
      InsertBehind(x, s);
      InsertWithKey(x, s[1..], k);
      LessIrreflexive(SortKey(x));
      WithKeyBehind(s[0], x, Insert(x, s[1..]), s[1..], k);
      assert s == [s[0]] + s[1..];
    } else {
      InsertAhead(x, s);
      WithKeyCons(x, s, k);
    }
  }

  /** The sort is stable: entries with equal keys keep their relative order. */
  lemma {:induction false} SortDescStable(s: seq<Entry>, k: string)
    ensures WithKey(SortDesc(s), k) == WithKey(s, k)
  {
    if s != [] {
      SortDescStable(s[1..], k);
      InsertWithKey(s[0], SortDesc(s[1..]), k);
    }
  }

  /** The first entry of a newest-first list has the largest key. */
  lemma SortedHeadIsLargest(s: seq<Entry>, e: Entry)
    requires SortedDesc(s) && e in s
    ensures !Less(SortKey(s[0]), SortKey(e))
  {
    var j :| 0 <= j < |s| && s[j] == e;
    LessIrreflexive(SortKey(e));
  }

  lemma SortedTail(s: seq<Entry>)
    requires SortedDesc(s) && s != []
    ensures SortedDesc(s[1..])
  {
    forall i, j | 0 <= i < j < |s[1..]| ensures !Less(SortKey(s[1..][i]), SortKey(s[1..][j])) {
      assert s[1..][i] == s[i + 1] && s[1..][j] == s[j + 1];
    }
  }

  /** Two lists that agree on every key's subsequence start with entries of
      the same key, when both are newest first. */
  lemma SortedSameHeadKey(t: seq<Entry>, u: seq<Entry>)
    requires SortedDesc(t) && SortedDesc(u) && t != [] && u != []
    requires forall k :: WithKey(t, k) == WithKey(u, k)
    ensures SortKey(t[0]) == SortKey(u[0])
  {
    var kt, ku := SortKey(t[0]), SortKey(u[0]);
    WithKeyOfHead(t);
    WithKeyOfHead(u);
    assert WithKey(u, kt) == WithKey(t, kt) && WithKey(t, ku) == WithKey(u, ku);
    WithKeyMembers(t, ku, WithKey(t, ku)[0]);
    WithKeyMembers(u, kt, WithKey(u, kt)[0]);
    SortedHeadIsLargest(t, WithKey(t, ku)[0]);
    SortedHeadIsLargest(u, WithKey(u, kt)[0]);
    LessTotal(kt, ku);
  }

  /** Dropping a common first entry keeps every key's subsequences equal. */
  lemma WithKeyTails(t: seq<Entry>, u: seq<Entry>)
    requires t != [] && u != [] && t[0] == u[0]
    requires forall k :: WithKey(t, k) == WithKey(u, k)
    ensures forall k :: WithKey(t[1..], k) == WithKey(u[1..], k)
  {
    forall k ensures WithKey(t[1..], k) == WithKey(u[1..], k) {
      assert t == [t[0]] + t[1..] && u == [u[0]] + u[1..];
      WithKeyCons(t[0], t[1..], k);
      WithKeyCons(u[0], u[1..], k);
      assert WithKey(t, k) == WithKey(u, k);
      var p := if SortKey(t[0]) == k then [t[0]] else [];
      assert WithKey(t[1..], k) == (p + WithKey(t[1..], k))[|p|..];
      assert WithKey(u[1..], k) == (p + WithKey(u[1..], k))[|p|..];
    }
  }

  /** Two non-empty newest-first lists that agree on every key's subsequence
      start with the same entry. */
  lemma SortedSameHead(t: seq<Entry>, u: seq<Entry>)
    requires SortedDesc(t) && SortedDesc(u) && t != [] && u != []
    requires forall k :: WithKey(t, k) == WithKey(u, k)
    ensures t[0] == u[0]
  {
    SortedSameHeadKey(t, u);
    var k := SortKey(t[0]);
    WithKeyCons(t[0], t[1..], k);
    WithKeyCons(u[0], u[1..], k);
    assert t == [t[0]] + t[1..] && u == [u[0]] + u[1..];
    assert WithKey(t, k)[0] == WithKey(u, k)[0];
  }

  /** Two newest-first lists that agree on every key's subsequence are equal. */
  lemma {:induction false} SortedSameKeysEqual(t: seq<Entry>, u: seq<Entry>)
    requires SortedDesc(t) && SortedDesc(u)
    requires forall k :: WithKey(t, k) == WithKey(u, k)
    ensures t == u
    decreases |t|
  {
    if t != [] {
      WithKeyOfHead(t);
    }
    if u != [] {
      WithKeyOfHead(u);
    }
    if t != [] && u != [] {
      SortedSameHead(t, u);
      WithKeyTails(t, u);
      SortedTail(t);
      SortedTail(u);
      SortedSameKeysEqual(t[1..], u[1..]);
      assert t == [t[0]] + t[1..] && u == [u[0]] + u[1..];
    }
  }

  /** The sort result is the only newest-first arrangement of its input that is
      stable, so modelling Python's sort by an insertion sort loses nothing. */
  lemma SortDescUnique(s: seq<Entry>, t: seq<Entry>)
    requires SortedDesc(t) && forall k :: WithKey(t, k) == WithKey(s, k)
    ensures t == SortDesc(s)
  {
    SortDescSorted(s);
    forall k ensures WithKey(t, k) == WithKey(SortDesc(s), k) {
      SortDescStable(s, k);
    }
    SortedSameKeysEqual(t, SortDesc(s));
  }

  /** Sorting an already newest-first list leaves it as it is. */
  lemma SortDescOfSorted(s: seq<Entry>)
    requires SortedDesc(s)
    ensures SortDesc(s) == s
  {
    SortDescUnique(s, s);
  }

  lemma HeadUrlNotInTail(s: seq<Entry>)
    requires s != [] && UniqueUrls(s)
    ensures s[0].url !in UrlSet(s[1..])
  {
    forall e | e in s[1..] ensures e.url != s[0].url {
      var m :| 0 <= m < |s[1..]| && s[1..][m] == e;
      assert s[m + 1] == e;
    }
  }

  lemma {:induction false} InsertUniqueUrls(x: Entry, s: seq<Entry>)
    requires UniqueUrls(s) && x.url !in UrlSet(s)
    ensures UniqueUrls(Insert(x, s))
  {
    if s != [] && Less(SortKey(x), SortKey(s[0])) {
      var rest := Insert(x, s[1..]);
      assert x.url !in UrlSet(s[1..]) by {
        UrlSetConcat([s[0]], s[1..]);
        assert s == [s[0]] + s[1..];
      }
      assert UniqueUrls(s[1..]) by {
        forall i, j | 0 <= i < j < |s[1..]| ensures s[1..][i].url != s[1..][j].url {
          assert s[1..][i] == s[i + 1] && s[1..][j] == s[j + 1];
        }
      }
      InsertUniqueUrls(x, s[1..]);
      var r := [s[0]] + rest;
      forall j | 0 < j < |r| ensures s[0].url != r[j].url {
        assert r[j] in multiset(rest);
        if r[j] != x {
          assert r[j] in s[1..];
          var m :| 0 <= m < |s[1..]| && s[1..][m] == r[j];
          assert s[m + 1] == r[j];
        } else {
          assert s[0] in s;
        }
      }
    } else {
      UrlSetConcat([x], s);
      UniqueUrlsConcat([x], s);
    }
  }

  /** Sorting keeps URLs unique and keeps the same URLs. */
  lemma {:induction false} SortDescUniqueUrls(s: seq<Entry>)
    requires UniqueUrls(s)
    ensures UniqueUrls(SortDesc(s)) && UrlSet(SortDesc(s)) == UrlSet(s)
  {
    UrlSetOfPermutation(s, SortDesc(s));
    if s != [] {
      var rest := s[1..];
      assert UniqueUrls(rest) by {
        forall i, j | 0 <= i < j < |rest| ensures rest[i].url != rest[j].url {
          assert rest[i] == s[i + 1] && rest[j] == s[j + 1];
        }
      }
      SortDescUniqueUrls(rest);
      HeadUrlNotInTail(s);
      InsertUniqueUrls(s[0], SortDesc(rest));
    }
  }
}
