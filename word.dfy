/** The word-card feed (src/components/Word/Word.js): active words in id
    order, fetched 20 rows at a time, minus the words the user has marked
    complete in local storage; plus the duplicate filter of the bulk upload. */
module WordFeed {

  import opened Common
  import opened Seqs
  import opened Text

  const PAGE_SIZE: nat := 20

  type WordId = int

  /** A row of the `Word` table. */
  datatype Word = Word(id: WordId, engWord: string, korWord: string, etc: string, useYn: bool)

  function Min(a: nat, b: nat): nat {
    if a <= b then a else b
  }

  // ---------------------------------------------------------------------
  // The page query
  // ---------------------------------------------------------------------

  /** First row of page `pageIndex`: `pageIndex * PAGE_SIZE`. */
  function PageFrom(pageIndex: nat): nat {
    pageIndex * PAGE_SIZE
  }

  /** Last row of page `pageIndex`, inclusive: `from + PAGE_SIZE - 1`. */
  function PageTo(pageIndex: nat): nat {
    PageFrom(pageIndex) + PAGE_SIZE - 1
  }

  /** `.range(from, to)`: the rows at positions `from` to `to` inclusive,
      as many of them as exist. */
  function RangeRows(rows: seq<Word>, from: nat, to: nat): (r: seq<Word>)
    ensures |r| <= to + 1 - from || (to < from && r == [])
    ensures forall k :: 0 <= k < |r| ==> from + k < |rows| && r[k] == rows[from + k]
    ensures from + |r| == Min(to + 1, |rows|) || (r == [] && (from >= |rows| || to < from))
  {
    if from >= |rows| || to < from then [] else rows[from..Min(to + 1, |rows|)]
  }

  function IsActive(): Word -> bool {
    (w: Word) => w.useYn
  }

  /** `.eq("useYn", true).order("id", { ascending: true })`: the active rows.
      The table is passed in ascending id order, the order the query asks the
      backend for. */
  function Active(table: seq<Word>): seq<Word> {
    Filter(table, IsActive())
  }

  /** The rows the backend returns for page `pageIndex`. */
  function ServerPage(table: seq<Word>, pageIndex: nat): seq<Word> {
    RangeRows(Active(table), PageFrom(pageIndex), PageTo(pageIndex))
  }

  /** A page asks for exactly `PAGE_SIZE` rows, and page `k + 1` starts on
      the row after the last row of page `k`. */
  lemma PageBoundsTile(k: nat)
    ensures PageTo(k) + 1 - PageFrom(k) == PAGE_SIZE
    ensures PageFrom(k + 1) == PageTo(k) + 1
  {
  }

  /** Page `k` is the slice of the active rows between its bounds. */
  lemma ServerPageSlice(table: seq<Word>, k: nat)
    ensures var n := |Active(table)|;
            ServerPage(table, k) == Active(table)[Min(PageFrom(k), n)..Min(PageFrom(k + 1), n)]
  {
  }

  /** Pages `0 .. k - 1` fetched one after the other. */
  function PagesUpTo(table: seq<Word>, k: nat): seq<Word> {
    if k == 0 then [] else PagesUpTo(table, k - 1) + ServerPage(table, k - 1)
  }

  /** Consecutive pages neither overlap nor leave gaps: the first `k` pages
      are the first `k * PAGE_SIZE` active rows (or all of them). */
  lemma {:induction false} PagesCoverPrefix(table: seq<Word>, k: nat)
    ensures PagesUpTo(table, k) == Active(table)[..Min(PageFrom(k), |Active(table)|)]
  {
    if k > 0 {
      PagesCoverPrefix(table, k - 1);
      ServerPageSlice(table, k - 1);
      var act := Active(table);
      var lo := Min(PageFrom(k - 1), |act|);
      var hi := Min(PageFrom(k), |act|);
      assert act[..lo] + act[lo..hi] == act[..hi];
    }
  }

  /** A page shorter than `PAGE_SIZE` is the last: with it, every active row
      has been fetched. */
  lemma ShortPageIsLast(table: seq<Word>, k: nat)
    requires |ServerPage(table, k)| < PAGE_SIZE
    ensures PagesUpTo(table, k + 1) == Active(table)
  {
    PagesCoverPrefix(table, k + 1);
    assert |Active(table)| <= PageFrom(k + 1);
    assert Active(table)[..|Active(table)|] == Active(table);
  }

  /** A full page always claims more, even when it ends the table: when the
      active rows fill exactly `k + 1` pages, page `k` says more may follow
      and page `k + 1` is empty. */
  lemma FullLastPageCostsOneMoreLoad(table: seq<Word>, k: nat)
    requires |Active(table)| == PageFrom(k + 1)
    ensures |ServerPage(table, k)| == PAGE_SIZE
    ensures ServerPage(table, k + 1) == []
  {
  }

  // ---------------------------------------------------------------------
  // Completion filter and fetchPage
  // ---------------------------------------------------------------------

  function NotIn(completed: seq<WordId>): Word -> bool {
    (w: Word) => w.id !in completed
  }

  /** `data.filter((w) => !completed.has(w.id))`. */
  function Exclude(rows: seq<Word>, completed: seq<WordId>): seq<Word> {
    Filter(rows, NotIn(completed))
  }

  datatype Page = Page(items: seq<Word>, hasMore: bool)

  /** `fetchPage(pageIndex)`: the page's rows without the completed ones, and
      whether the backend returned a full page. A failed query fails. */
  function FetchPage(table: Fetch<seq<Word>>, pageIndex: nat, completed: seq<WordId>): (r: Fetch<Page>)
    ensures r.Fetched? <==> table.Fetched?
    ensures r.Fetched? ==> |r.data.items| <= PAGE_SIZE
    ensures r.Fetched? ==> forall k :: 0 <= k < |r.data.items| ==> r.data.items[k].id !in completed
    ensures r.Fetched? && |r.data.items| == PAGE_SIZE ==> r.data.hasMore
  {
    match table
    case FetchFailed => FetchFailed
    case Fetched(t) =>
      var raw := ServerPage(t, pageIndex);
      Fetched(Page(Exclude(raw, completed), |raw| == PAGE_SIZE))
  }

  /** The items of a page are exactly its rows whose id is not completed, in
      the backend's order; `hasMore` looks only at the raw row count. */
  lemma FetchPageItems(t: seq<Word>, pageIndex: nat, completed: seq<WordId>)
    ensures var p := FetchPage(Fetched(t), pageIndex, completed);
            && p.Fetched?
            && (forall w :: w in p.data.items <==> w in ServerPage(t, pageIndex) && w.id !in completed)
            && |p.data.items| <= |ServerPage(t, pageIndex)|
            && (p.data.hasMore <==> |ServerPage(t, pageIndex)| == PAGE_SIZE)
            && (p.data.hasMore <==> FetchPage(Fetched(t), pageIndex, []).data.hasMore)
  {
    FilterMembers(ServerPage(t, pageIndex), NotIn(completed));
  }

  /** Excluding completed ids page by page gives the same list as excluding
      them from all the rows at once. */
  lemma ExcludePages(table: seq<Word>, k: nat, completed: seq<WordId>)
    ensures Exclude(PagesUpTo(table, k + 1), completed)
            == Exclude(PagesUpTo(table, k), completed) + Exclude(ServerPage(table, k), completed)
  {
    FilterConcat(PagesUpTo(table, k), ServerPage(table, k), NotIn(completed));
  }

  /** Twenty-five active words and no completions: the first page shows 20
      and offers more, the second shows the other 5 and offers no more. */
  lemma TwentyFiveWords(table: seq<Word>)
    requires |table| == 25 && forall i :: 0 <= i < |table| ==> table[i].useYn
    ensures FetchPage(Fetched(table), 0, []) == Fetched(Page(table[..20], true))
    ensures FetchPage(Fetched(table), 1, []) == Fetched(Page(table[20..], false))
  {
    FilterAll(table, IsActive());
    assert Active(table) == table;
    assert ServerPage(table, 0) == table[..20];
    assert ServerPage(table, 1) == table[20..];
    FilterAll(table[..20], NotIn([]));
    FilterAll(table[20..], NotIn([]));
  }

  /** A full page of words that are all completed shows nothing, yet still
      offers to load more, because the raw row count is a full page. */
  lemma FullyCompletedPage(table: seq<Word>, completed: seq<WordId>)
    requires |table| == PAGE_SIZE && forall i :: 0 <= i < |table| ==> table[i].useYn
    requires forall i :: 0 <= i < |table| ==> table[i].id in completed
    ensures FetchPage(Fetched(table), 0, completed) == Fetched(Page([], true))
  {
    FilterAll(table, IsActive());
    assert ServerPage(table, 0) == table[..20] == table;
    forall w | w in table ensures !NotIn(completed)(w) {
      var i :| 0 <= i < |table| && table[i] == w;
    }
    FilterNone(table, NotIn(completed));
  }

  function IsNot(wordId: WordId): Word -> bool {
    (w: Word) => w.id != wordId
  }

  /** Excluding one more id equals removing that id from what was left. */
  lemma ExcludeOneMore(rows: seq<Word>, completed: seq<WordId>, wordId: WordId)
    ensures Exclude(rows, completed + [wordId]) == Filter(Exclude(rows, completed), IsNot(wordId))
  {
    FilterTwice(rows, NotIn(completed), IsNot(wordId), NotIn(completed + [wordId]));
  }

  // ---------------------------------------------------------------------
  // The feed's state
  // ---------------------------------------------------------------------

  class Feed {
    var words: seq<Word>
    var page: nat
    var hasMore: bool
    var loadingMore: bool
    /** The `completedWords` entry of local storage; `None` when absent. */
    var stored: Option<seq<WordId>>
    /** The raw rows of every page fetched since the last reset. */
    ghost var fetched: seq<Word>

    /** `getCompletedIds()`: a missing entry reads as the empty list. */
    function CompletedIds(): (ids: seq<WordId>)
      reads this
      ensures stored.None? ==> ids == []
      ensures stored.Some? ==> ids == stored.value
    {
      if stored.Some? then stored.value else []
    }

    /** The cards on screen are the fetched rows, in order, minus every word
        marked complete, whether before or after its page arrived. */
    ghost predicate Valid()
      reads this
    {
      words == Exclude(fetched, CompletedIds())
    }

    /** The `useState` initial values, with local storage as found. */
    constructor (stored: Option<seq<WordId>>)
      ensures Valid()
      ensures words == [] && fetched == [] && page == 0 && hasMore && !loadingMore
      ensures this.stored == stored
    {
      words, page, hasMore, loadingMore := [], 0, true, false;
      this.stored := stored;
      fetched := [];
    }

    /** `resetAndLoad()`: start over with page 0. On failure the feed is
        left empty at page 0 and still offers to load more. */
    method ResetAndLoad(table: Fetch<seq<Word>>)
      requires Valid()
      modifies this`words, this`page, this`hasMore, this`fetched
      ensures Valid()
      ensures table.Fetched? ==>
                && fetched == ServerPage(table.data, 0)
                && words == Exclude(ServerPage(table.data, 0), CompletedIds())
                && page == 1
                && hasMore == (|ServerPage(table.data, 0)| == PAGE_SIZE)
      ensures table.FetchFailed? ==> words == [] && fetched == [] && page == 0 && hasMore
    {
      words, page, hasMore := [], 0, true;
      fetched := [];
      var first := FetchPage(table, 0, CompletedIds());
      if first.Fetched? {
        words := first.data.items;
        hasMore := first.data.hasMore;
        page := 1;
        fetched := ServerPage(table.data, 0);
      }
    }

    /** The synchronous start of `loadMore()`: nothing when no more pages
        are expected or a load is in flight; otherwise the load starts for
        the current page. */
    method BeginLoadMore() returns (request: Option<nat>)
      requires Valid()
      modifies this`loadingMore
      ensures Valid()
      ensures !old(hasMore) || old(loadingMore) ==> request.None? && loadingMore == old(loadingMore)
      ensures old(hasMore) && !old(loadingMore) ==> request == Some(page) && loadingMore
    {
      if !hasMore || loadingMore {
        return None;
      }
      loadingMore := true;
      request := Some(page);
    }

    /** The end of `loadMore()`, when the query for page `pageIndex` answers:
        the new items go after the cards already shown and the page count
        moves on; on failure nothing but the in-flight flag changes. */
    method FinishLoadMore(pageIndex: nat, table: Fetch<seq<Word>>)
      requires Valid()
      modifies this`words, this`page, this`hasMore, this`loadingMore, this`fetched
      ensures Valid()
      ensures !loadingMore
      ensures table.Fetched? ==>
                && fetched == old(fetched) + ServerPage(table.data, pageIndex)
                && words == old(words) + Exclude(ServerPage(table.data, pageIndex), CompletedIds())
                && page == old(page) + 1
                && hasMore == (|ServerPage(table.data, pageIndex)| == PAGE_SIZE)
      ensures table.FetchFailed? ==>
                words == old(words) && fetched == old(fetched) && page == old(page) && hasMore == old(hasMore)
    {
      var next := FetchPage(table, pageIndex, CompletedIds());
      if next.Fetched? {
        FilterConcat(fetched, ServerPage(table.data, pageIndex), NotIn(CompletedIds()));
        words := words + next.data.items;
        hasMore := next.data.hasMore;
        page := page + 1;
        fetched := fetched + ServerPage(table.data, pageIndex);
      }
      loadingMore := false;
    }

    /** `handleComplete(wordId)`: the id is appended to the stored list, even
        if it is there already, and every card with that id leaves the screen. */
    method Complete(wordId: WordId)
      requires Valid()
      modifies this`stored, this`words
      ensures Valid()
      ensures CompletedIds() == old(CompletedIds()) + [wordId]
      ensures |CompletedIds()| == |old(CompletedIds())| + 1
      ensures words == Filter(old(words), IsNot(wordId))
      ensures forall w :: w in words <==> w in old(words) && w.id != wordId
    {
      ExcludeOneMore(fetched, CompletedIds(), wordId);
      FilterMembers(words, IsNot(wordId));
      stored := Some(CompletedIds() + [wordId]);
      words := Filter(words, IsNot(wordId));
    }

    /** `handleFileUpload`, after the sheet is parsed: when the plan is an
        insert and the insert succeeds, the feed starts over. */
    method Upload(rows: seq<SheetRow>, existing: Fetch<seq<Option<string>>>, insertOk: bool,
                  table: Fetch<seq<Word>>)
      returns (plan: UploadPlan)
      requires Valid()
      modifies this`words, this`page, this`hasMore, this`fetched
      ensures Valid()
      ensures plan == PlanUpload(rows, existing)
      ensures plan.Insert? && insertOk && table.Fetched? ==>
                && fetched == ServerPage(table.data, 0)
                && words == Exclude(ServerPage(table.data, 0), CompletedIds())
                && page == 1
                && hasMore == (|ServerPage(table.data, 0)| == PAGE_SIZE)
      ensures plan.Insert? && insertOk && table.FetchFailed? ==>
                words == [] && fetched == [] && page == 0 && hasMore
      ensures !(plan.Insert? && insertOk) ==>
                words == old(words) && page == old(page) && hasMore == old(hasMore) && fetched == old(fetched)
    {
      plan := PlanUpload(rows, existing);
      if plan.Insert? && insertOk {
        ResetAndLoad(table);
      }
    }
  }

  /** Pagination completeness: on an unchanged table, starting over and then
      loading page after page until a page comes back short leaves every
      active, not completed word on screen, in id order, once. */
  lemma DrainedFeedShowsAll(table: seq<Word>, k: nat, completed: seq<WordId>)
    requires |ServerPage(table, k)| < PAGE_SIZE
    ensures Exclude(PagesUpTo(table, k + 1), completed) == Exclude(Active(table), completed)
  {
    ShortPageIsLast(table, k);
  }

  // ---------------------------------------------------------------------
  // Bulk upload: skipping words already in the table
  // ---------------------------------------------------------------------

  /** A parsed sheet row (`header: ["engWord", "korWord", "etc"]`); an empty
      cell is absent. */
  datatype SheetRow = SheetRow(engWord: Option<string>, korWord: Option<string>, etc: Option<string>)

  /** JavaScript truthiness of a text cell. */
  predicate Truthy(cell: Option<string>) {
    cell.Some? && cell.value != ""
  }

  /** `existingSet`: the normalized form of every truthy `engWord` in the table. */
  function ExistingKeys(existing: seq<Option<string>>): (keys: set<string>)
    ensures forall i :: 0 <= i < |existing| && Truthy(existing[i]) ==> Normalize(existing[i].value) in keys
    ensures forall k :: k in keys ==> exists i :: 0 <= i < |existing| && Truthy(existing[i]) && k == Normalize(existing[i].value)
  {
    set i | 0 <= i < |existing| && Truthy(existing[i]) :: Normalize(existing[i].value)
  }

  function IsNew(keys: set<string>): SheetRow -> bool {
    (w: SheetRow) => Truthy(w.engWord) && Normalize(w.engWord.value) !in keys
  }

  /** `newWords`: the rows with a truthy word whose normalized form is not
      already taken, in sheet order. */
  function NewWords(rows: seq<SheetRow>, keys: set<string>): (r: seq<SheetRow>)
    ensures |r| <= |rows|
    ensures forall k :: 0 <= k < |r| ==> Truthy(r[k].engWord) && Normalize(r[k].engWord.value) !in keys
  {
    Filter(rows, IsNew(keys))
  }

  datatype UploadPlan = EmptySheet | LookupFailed | NothingNew | Insert(rows: seq<SheetRow>)

  /** The decisions of `handleFileUpload`: an empty sheet is an error, a
      failed lookup of the existing words is an error, no new word is an
      error, and otherwise the new words are inserted. */
  function PlanUpload(rows: seq<SheetRow>, existing: Fetch<seq<Option<string>>>): (r: UploadPlan)
    ensures r == EmptySheet <==> rows == []
    ensures r == LookupFailed <==> rows != [] && existing.FetchFailed?
    ensures r.Insert? ==> 0 < |r.rows| <= |rows|
    ensures r.Insert? ==> forall k :: 0 <= k < |r.rows| ==>
              Truthy(r.rows[k].engWord) && Normalize(r.rows[k].engWord.value) !in ExistingKeys(existing.data)
  {
    if rows == [] then EmptySheet
    else if existing.FetchFailed? then LookupFailed
    else
      var newRows := NewWords(rows, ExistingKeys(existing.data));
      if newRows == [] then NothingNew else Insert(newRows)
  }

  /** The inserted rows are exactly the sheet rows with a word that matches
      no existing word once both are trimmed and lower-cased; nothing is
      inserted when there is none. */
  lemma UploadInsertsExactlyNewWords(rows: seq<SheetRow>, existing: seq<Option<string>>)
    ensures var plan := PlanUpload(rows, Fetched(existing));
            && (plan.Insert? || plan == EmptySheet || plan == NothingNew)
            && (plan.Insert? ==> forall w :: w in plan.rows <==>
                  && w in rows && Truthy(w.engWord)
                  && forall i :: 0 <= i < |existing| && Truthy(existing[i]) ==>
                       Normalize(existing[i].value) != Normalize(w.engWord.value))
            && (plan == NothingNew <==>
                  rows != [] && forall w :: w in rows ==> !IsNew(ExistingKeys(existing))(w))
  {
    var keys := ExistingKeys(existing);
    var newRows := NewWords(rows, keys);
    FilterMembers(rows, IsNew(keys));
    if rows != [] && newRows != [] {
      forall w ensures w in newRows <==>
                  && w in rows && Truthy(w.engWord)
                  && forall i :: 0 <= i < |existing| && Truthy(existing[i]) ==>
                       Normalize(existing[i].value) != Normalize(w.engWord.value)
      {
        if w in rows && Truthy(w.engWord) && Normalize(w.engWord.value) in keys {
          var i :| 0 <= i < |existing| && Truthy(existing[i]) && Normalize(w.engWord.value) == Normalize(existing[i].value);
        }
      }
    }
    if rows != [] && newRows == [] {
      forall w | w in rows ensures !IsNew(keys)(w) {
        assert !(w in newRows);
      }
    }
    if rows != [] && (forall w :: w in rows ==> !IsNew(keys)(w)) {
      FilterNone(rows, IsNew(keys));
    }
  }

  /** Only the table's words are compared, never the sheet's rows with one
      another: every copy of a new word in the sheet is inserted, and no copy
      of any other row. */
  lemma SheetDuplicatesAreKept(rows: seq<SheetRow>, existing: seq<Option<string>>, w: SheetRow)
    ensures var keys := ExistingKeys(existing);
            var plan := PlanUpload(rows, Fetched(existing));
            && (w in rows && IsNew(keys)(w) ==> plan.Insert?)
            && (plan.Insert? ==> multiset(plan.rows)[w] == if IsNew(keys)(w) then multiset(rows)[w] else 0)
  {
    var keys := ExistingKeys(existing);
    FilterMultiplicity(rows, IsNew(keys), w);
    if w in rows && IsNew(keys)(w) {
      assert multiset(NewWords(rows, keys))[w] > 0;
    }
  }

  /** Case and surrounding white space do not make a word new: a sheet word
      with the key of an existing word, whether padded or in other capitals,
      is not inserted. */
  lemma UploadIgnoresCaseAndPadding(existing: string, word: string, w: SheetRow)
    requires existing != "" && word != ""
    requires Normalize(word) == Normalize(existing)
    requires w.engWord == Some(word)
    ensures PlanUpload([w], Fetched([Some(existing)])) == NothingNew
  {
    var rowsInTable := [Some(existing)];
    var keys := ExistingKeys(rowsInTable);
    assert Truthy(rowsInTable[0]);
    assert Normalize(w.engWord.value) in keys;
    assert !IsNew(keys)(w);
    FilterNone([w], IsNew(keys));
  }

}
