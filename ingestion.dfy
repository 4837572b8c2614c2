/** The ingestion pipeline (`get_data`): fetch up to ten pages of commits,
    stop at the first empty page, shape every fetched commit into a commit row
    and an author row, and keep the author rows without repeats. */
module Ingestion {
  import opened Common
  import opened Timestamps
  import opened RecordShaper

  /** The page budget and the page size the requests ask for. */
  const MaxPages: nat := 10
  const PerPage: nat := 100

  /** What the run is about: the repository and the commit window. */
  datatype Query = Query(organization: string, repository: string, since: Timestamp, until: Timestamp)

  /** One HTTP request: the endpoint and its four query parameters. */
  datatype Request = Request(endpoint: string, since: Timestamp, until: Timestamp, perPage: nat, page: nat)

  /** The remote source: for each request, the decoded list of commit objects
      it answers with, or the exception the transport or the decoding raises. */
  type PageSource = Request -> Result<seq<Item>, Error>

  /** How `get_data` ends: it returns the two lists, or it raises. */
  datatype Outcome = Returned(commits: seq<CommitRow>, authors: seq<AuthorRow>) | Raised(error: Error)

  function Endpoint(q: Query): string {
    "https://api.github.com/repos/" + q.organization + "/" + q.repository + "/commits"
  }

  function PageRequest(q: Query, page: nat): Request {
    Request(Endpoint(q), q.since, q.until, PerPage, page)
  }

  /** A page that was answered with at least one commit. */
  predicate NonEmptyPage(source: PageSource, q: Query, page: nat) {
    source(PageRequest(q, page)).Ok? && source(PageRequest(q, page)).value != []
  }

  /** The requests made from page `page` on: each page is requested, and the
      next one only after a non-empty answer, up to the page budget. */
  function RequestsFrom(source: PageSource, q: Query, page: nat): seq<Request>
    requires 1 <= page
    decreases MaxPages + 1 - page
  {
    if page > MaxPages then []
    else [PageRequest(q, page)] + (if NonEmptyPage(source, q, page) then RequestsFrom(source, q, page + 1) else [])
  }

  function Prepend(prefix: seq<Item>, r: Result<seq<Item>, Error>): Result<seq<Item>, Error> {
    match r
    case Ok(items) => Ok(prefix + items)
    case Err(e) => Err(e)
  }

  /** The items collected from page `page` on, or the first exception. */
  function CollectFrom(source: PageSource, q: Query, page: nat): Result<seq<Item>, Error>
    requires 1 <= page
    decreases MaxPages + 1 - page
  {
    if page > MaxPages then Ok([])
    else match source(PageRequest(q, page))
      case Err(e) => Err(e)
      case Ok(items) => if items == [] then Ok([]) else Prepend(items, CollectFrom(source, q, page + 1))
  }

  /** The commit rows of a batch, one per item and in the same order. */
  function CommitRows(all: seq<Item>): (rows: seq<CommitRow>)
    requires AllWellFormed(all)
    ensures |rows| == |all|
    ensures forall j :: 0 <= j < |all| ==> rows[j] == CommitRow(all[j].email.value, all[j].date.value)
  {
    if all == [] then [] else [CommitRow(all[0].email.value, all[0].date.value)] + CommitRows(all[1..])
  }

  /** The author rows `format_data` gives for the first `n` items. */
  function AuthorRows(all: seq<Item>, n: nat): seq<AuthorRow>
    requires n <= |all|
    requires forall j :: 0 <= j < n ==> FormatData(j, all).Ok?
  {
    seq(n, j requires 0 <= j < n => FormatData(j, all).value.1)
  }

  /** The rows in the order first seen, each kept once: the list that appending
      after a `not in` test builds. */
  function Dedup<T(==)>(s: seq<T>): seq<T> {
    if s == [] then []
    else
      var kept := Dedup(s[..|s| - 1]);
      if s[|s| - 1] in kept then kept else kept + [s[|s| - 1]]
  }

  /** What `get_data` does: an `IndexError` leaves both lists as they were
      (empty, since the shaping has not begun), any other exception is
      re-raised, and otherwise every collected item is shaped; a missing field
      raises `KeyError`. */
  function GetDataSpec(source: PageSource, q: Query): Outcome {
    match CollectFrom(source, q, 1)
    case Err(e) => if e == IndexError then Returned([], []) else Raised(e)
    case Ok(all) =>
      if AllWellFormed(all) then Returned(CommitRows(all), Authors(all))
      else Raised(KeyError)
  }

  /** Fetching a non-empty page moves its items from what is still to be
      collected to what has been collected. */
  lemma FetchStep(source: PageSource, q: Query, page: nat, prefix: seq<Item>)
    requires 1 <= page <= MaxPages && NonEmptyPage(source, q, page)
    ensures Prepend(prefix + source(PageRequest(q, page)).value, CollectFrom(source, q, page + 1))
         == Prepend(prefix, CollectFrom(source, q, page))
  {
    var items := source(PageRequest(q, page)).value;
    var rest := CollectFrom(source, q, page + 1);
    assert CollectFrom(source, q, page) == Prepend(items, rest);
    if rest.Ok? {
      assert (prefix + items) + rest.value == prefix + (items + rest.value);
    }
  }

  /** Fetching a non-empty page moves its request to those made. */
  lemma RequestStep(source: PageSource, q: Query, page: nat, done: seq<Request>)
    requires 1 <= page <= MaxPages && NonEmptyPage(source, q, page)
    ensures (done + [PageRequest(q, page)]) + RequestsFrom(source, q, page + 1) == done + RequestsFrom(source, q, page)
  {
    assert RequestsFrom(source, q, page) == [PageRequest(q, page)] + RequestsFrom(source, q, page + 1);
  }

  /** A page answered with an exception or with no commits is the last one
      requested: an exception is what the collection ends with, an empty page
      adds nothing. */
  lemma LastPage(source: PageSource, q: Query, page: nat, prefix: seq<Item>, done: seq<Request>)
    requires 1 <= page <= MaxPages && !NonEmptyPage(source, q, page)
    ensures source(PageRequest(q, page)).Err? ==>
      Prepend(prefix, CollectFrom(source, q, page)) == Err(source(PageRequest(q, page)).error)
    ensures source(PageRequest(q, page)).Ok? ==> Prepend(prefix, CollectFrom(source, q, page)) == Ok(prefix)
    ensures done + [PageRequest(q, page)] == done + RequestsFrom(source, q, page)
  {
    assert prefix + [] == prefix;
    assert RequestsFrom(source, q, page) == [PageRequest(q, page)];
  }

  /** Past the page budget nothing more is requested or collected. */
  lemma PastBudget(source: PageSource, q: Query, page: nat, prefix: seq<Item>, done: seq<Request>)
    requires page == MaxPages + 1
    ensures Prepend(prefix, CollectFrom(source, q, page)) == Ok(prefix)
    ensures done + RequestsFrom(source, q, page) == done
  {
    assert prefix + [] == prefix;
    assert done + [] == done;
  }

  /** The items `format_data` has shaped are complete records. */
  lemma ShapedAreWellFormed(all: seq<Item>, n: nat)
    requires n <= |all|
    requires forall j :: 0 <= j < n ==> FormatData(j, all).Ok?
    ensures AllWellFormed(all[..n])
  {
    forall j | 0 <= j < n ensures WellFormed(all[..n][j]) {
      assert FormatData(j, all).Ok?;
    }
  }

  /** The commit rows of a batch end with the row of its last item. */
  lemma CommitRowsSnoc(all: seq<Item>)
    requires all != [] && AllWellFormed(all)
    ensures AllWellFormed(all[..|all| - 1])
    ensures CommitRows(all) == CommitRows(all[..|all| - 1]) + [CommitRow(all[|all| - 1].email.value, all[|all| - 1].date.value)]
  {
    var init := all[..|all| - 1];
    assert forall j :: 0 <= j < |init| ==> init[j] == all[j];
  }

  /** The author rows of one more item end with that item's author row. */
  lemma AuthorRowsSnoc(all: seq<Item>, n: nat)
    requires n < |all|
    requires forall j :: 0 <= j <= n ==> FormatData(j, all).Ok?
    ensures AuthorRows(all, n + 1) == AuthorRows(all, n) + [FormatData(n, all).value.1]
  {
    var longer, shorter := AuthorRows(all, n + 1), AuthorRows(all, n);
    forall k | 0 <= k < n ensures longer[k] == shorter[k] {
    }
  }

  /** Shaping item `i` extends the rows built for the items before it. */
  lemma ShapeStep(all: seq<Item>, i: nat)
    requires i < |all|
    requires forall j :: 0 <= j <= i ==> FormatData(j, all).Ok?
    ensures AllWellFormed(all[..i + 1])
    ensures CommitRows(all[..i + 1]) == CommitRows(all[..i]) + [FormatData(i, all).value.0]
    ensures AuthorRows(all, i + 1) == AuthorRows(all, i) + [FormatData(i, all).value.1]
  {
    ShapedAreWellFormed(all, i + 1);
    CommitRowsSnoc(all[..i + 1]);
    assert all[..i + 1][..i] == all[..i];
    AuthorRowsSnoc(all, i);
  }

  /** The fetch loop of `get_data`: request pages 1 to 10 in turn, append
      each non-empty page, and stop at the first empty one. An exception from
      the source ends the loop with that exception. */
  method FetchPages(source: PageSource, q: Query) returns (collected: Result<seq<Item>, Error>, ghost requested: seq<Request>)
    ensures collected == CollectFrom(source, q, 1)
    ensures requested == RequestsFrom(source, q, 1)
  {
    var allResponses: seq<Item> := [];
    requested := [];
    var page := 1;
    ghost var whole, pages := CollectFrom(source, q, 1), RequestsFrom(source, q, 1);
    assert Prepend([], whole) == whole by {
      if whole.Ok? {
        assert [] + whole.value == whole.value;
      }
    }
    assert [] + pages == pages;
    while page <= MaxPages
      invariant 1 <= page <= MaxPages + 1
      invariant Prepend(allResponses, CollectFrom(source, q, page)) == CollectFrom(source, q, 1)
      invariant requested + RequestsFrom(source, q, page) == RequestsFrom(source, q, 1)
    {
      var request := PageRequest(q, page);
      var response := source(request);
      if response.Err? || response.value == [] {
        LastPage(source, q, page, allResponses, requested);
        requested := requested + [request];
        if response.Err? {
          return Err(response.error), requested;
        }
        return Ok(allResponses), requested;
      }
      FetchStep(source, q, page, allResponses);
      RequestStep(source, q, page, requested);
      requested := requested + [request];
      allResponses := allResponses + response.value;
      page := page + 1;
    }
    PastBudget(source, q, page, allResponses, requested);
    collected := Ok(allResponses);
  }

  /** The shaping loop of `get_data`: `format_data` on every index in turn,
      each commit row appended, each author row appended unless an equal row
      is already in the list. The first exception ends the loop. */
  method ShapeBatch(allResponses: seq<Item>) returns (commitsInfo: seq<CommitRow>, firstlastDatesInfo: seq<AuthorRow>, failure: Option<Error>)
    ensures failure.None? <==> AllWellFormed(allResponses)
    ensures failure.Some? ==> failure.value == KeyError
    ensures failure.None? ==> commitsInfo == CommitRows(allResponses)
    ensures failure.None? ==> firstlastDatesInfo == Authors(allResponses)
  {
    commitsInfo, firstlastDatesInfo, failure := [], [], None;
    var i := 0;
    while i < |allResponses|
      invariant i <= |allResponses|
      invariant forall j :: 0 <= j < i ==> FormatData(j, allResponses).Ok?
      invariant AllWellFormed(allResponses[..i])
      invariant commitsInfo == CommitRows(allResponses[..i])
      invariant firstlastDatesInfo == Dedup(AuthorRows(allResponses, i))
    {
      var shaped := FormatData(i, allResponses);
      if shaped.Err? {
        assert !AllWellFormed(allResponses);
        return commitsInfo, firstlastDatesInfo, Some(shaped.error);
      }
      var (commitInfo, firstlastDateInfo) := shaped.value;
      ShapeStep(allResponses, i);
      commitsInfo := commitsInfo + [commitInfo];
      if firstlastDateInfo !in firstlastDatesInfo {
        firstlastDatesInfo := firstlastDatesInfo + [firstlastDateInfo];
      }
      i := i + 1;
    }
    assert allResponses[..i] == allResponses;
  }

  /** `get_data`: both loops run inside one `try`; an `IndexError` returns the
      lists built so far, any other exception is re-raised. The requests made
      are returned as `requested`, for the statements about which pages are
      asked for. */
  method GetData(source: PageSource, q: Query) returns (outcome: Outcome, ghost requested: seq<Request>)
    ensures outcome == GetDataSpec(source, q)
    ensures requested == RequestsFrom(source, q, 1)
  {
    var commitsInfo: seq<CommitRow> := [];
    var firstlastDatesInfo: seq<AuthorRow> := [];
    var collected;
    collected, requested := FetchPages(source, q);
    if collected.Err? {
      if collected.error == IndexError {
        return Returned(commitsInfo, firstlastDatesInfo), requested;
      }
      return Raised(collected.error), requested;
    }
    var failure;
    commitsInfo, firstlastDatesInfo, failure := ShapeBatch(collected.value);
    if failure.Some? {
      if failure.value == IndexError {
        return Returned(commitsInfo, firstlastDatesInfo), requested;
      }
      return Raised(failure.value), requested;
    }
    outcome := Returned(commitsInfo, firstlastDatesInfo);
  }

  /** `main`'s window check (`start_date > end_date` raises `ValueError`)
      followed by `get_data`; a rejected window makes no request. */
  method Run(source: PageSource, q: Query) returns (outcome: Outcome, ghost requested: seq<Request>)
    ensures !ChronoLe(q.since, q.until) ==> outcome == Raised(ValueError) && requested == []
    ensures ChronoLe(q.since, q.until) ==> outcome == GetDataSpec(source, q) && requested == RequestsFrom(source, q, 1)
  {
    if !ChronoLe(q.since, q.until) {
      return Raised(ValueError), [];
    }
    outcome, requested := GetData(source, q);
  }

  // Pagination

  /** The items of pages `page` up to but not including `stop`, concatenated
      in page order. */
  function PagesFrom(source: PageSource, q: Query, page: nat, stop: nat): seq<Item>
    requires forall j :: page <= j < stop ==> NonEmptyPage(source, q, j)
    decreases stop - page
  {
    if page >= stop then []
    else
      assert NonEmptyPage(source, q, page);
      source(PageRequest(q, page)).value + PagesFrom(source, q, page + 1, stop)
  }

  /** The requests are for pages 1, 2, ... in order, at most ten of them, each
      for the same endpoint and window and asking for 100 items. */
  lemma {:induction false} RequestsArePages(source: PageSource, q: Query, page: nat)
    requires 1 <= page <= MaxPages + 1
    ensures var rs := RequestsFrom(source, q, page);
      |rs| <= MaxPages + 1 - page && (page <= MaxPages ==> 1 <= |rs|)
      && forall j :: 0 <= j < |rs| ==> rs[j] == PageRequest(q, page + j) && rs[j].perPage == 100
    decreases MaxPages + 1 - page
  {
    if page <= MaxPages && NonEmptyPage(source, q, page) {
      RequestsArePages(source, q, page + 1);
    }
  }

  /** Pagination stops at the first page that is not answered with commits:
      when pages before `stop` were non-empty and page `stop` is empty (or
      `stop` is past the budget), exactly the pages before `stop` and `stop`
      itself are requested, no later one, and the collected items are the
      concatenation of the pages before `stop`. */
  lemma {:induction false} StopsAtFirstEmpty(source: PageSource, q: Query, page: nat, stop: nat)
    requires 1 <= page <= stop <= MaxPages + 1
    requires forall j :: page <= j < stop ==> NonEmptyPage(source, q, j)
    requires stop <= MaxPages ==> source(PageRequest(q, stop)) == Ok([])
    ensures CollectFrom(source, q, page) == Ok(PagesFrom(source, q, page, stop))
    ensures |RequestsFrom(source, q, page)| == (if stop <= MaxPages then stop + 1 - page else stop - page)
    ensures forall r :: r in RequestsFrom(source, q, page) ==> r.page <= stop
    decreases stop - page
  {
    RequestsArePages(source, q, page);
    if page < stop {
      StopsAtFirstEmpty(source, q, page + 1, stop);
    }
  }

  /** When the source answers no request with more items than it asked for,
      at most 1000 items are collected. */
  lemma {:induction false} CollectBound(source: PageSource, q: Query, page: nat)
    requires 1 <= page <= MaxPages + 1
    requires forall r :: source(r).Ok? ==> |source(r).value| <= r.perPage
    ensures CollectFrom(source, q, page).Ok? ==>
      |CollectFrom(source, q, page).value| <= (MaxPages + 1 - page) * PerPage
    decreases MaxPages + 1 - page
  {
    if page <= MaxPages && NonEmptyPage(source, q, page) {
      CollectBound(source, q, page + 1);
    }
  }

  /** An empty first page ends the run normally with two empty lists after a
      single request. */
  lemma EmptyFirstPage(source: PageSource, q: Query)
    requires source(PageRequest(q, 1)) == Ok([])
    ensures GetDataSpec(source, q) == Returned([], [])
    ensures RequestsFrom(source, q, 1) == [PageRequest(q, 1)]
  {
    assert CommitRows([]) == [];
  }

  // De-duplication

  lemma {:induction false} DedupElements<T>(s: seq<T>)
    ensures forall x :: x in Dedup(s) <==> x in s
  {
    if s != [] {
      DedupElements(s[..|s| - 1]);
      assert s == s[..|s| - 1] + [s[|s| - 1]];
    }
  }

  lemma {:induction false} DedupNoDuplicates<T>(s: seq<T>)
    ensures forall i, j :: 0 <= i < j < |Dedup(s)| ==> Dedup(s)[i] != Dedup(s)[j]
  {
    if s != [] {
      DedupNoDuplicates(s[..|s| - 1]);
    }
  }

  /** The rows kept after a prefix of the input are a prefix of the rows
      kept after all of it: rows are only ever appended, each at its first
      occurrence. */
  lemma {:induction false} DedupPrefix<T>(s: seq<T>, n: nat)
    requires n <= |s|
    ensures Dedup(s[..n]) <= Dedup(s)
    decreases |s|
  {
    if n < |s| {
      var init := s[..|s| - 1];
      assert init[..n] == s[..n];
      DedupPrefix(init, n);
    } else {
      assert s[..n] == s;
    }
  }

  // What `get_data` returns

  /** Every item of a batch of complete records can be shaped. */
  lemma AllFormatted(all: seq<Item>)
    requires AllWellFormed(all)
    ensures forall j :: 0 <= j < |all| ==> FormatData(j, all).Ok?
  {
    forall j | 0 <= j < |all| ensures FormatData(j, all).Ok? {
      FormatDataTotal(all, j);
    }
  }

  /** The author list `get_data` returns for a batch of complete records. */
  function Authors(all: seq<Item>): seq<AuthorRow>
    requires AllWellFormed(all)
  {
    AllFormatted(all);
    Dedup(AuthorRows(all, |all|))
  }

  /** The author list has no repeated row, holds the author row of every
      commit of the batch and nothing else, and keeps first-seen order. */
  lemma AuthorsDeduplicated(all: seq<Item>)
    requires AllWellFormed(all)
    ensures var authors := Authors(all);
      (forall i, j :: 0 <= i < j < |authors| ==> authors[i] != authors[j])
      && (forall a :: a in authors <==> exists j :: 0 <= j < |all| && a == FormatData(j, all).value.1)
      && (forall a :: a in authors ==> a in AuthorRows(all, |all|))
      && (forall n :: 0 <= n <= |all| ==> Dedup(AuthorRows(all, n)) <= authors)
  {
    AllFormatted(all);
    var rows := AuthorRows(all, |all|);
    DedupNoDuplicates(rows);
    DedupElements(rows);
    forall n | 0 <= n <= |all| ensures Dedup(AuthorRows(all, n)) <= Dedup(rows) {
      assert AuthorRows(all, n) == rows[..n];
      DedupPrefix(rows, n);
    }
    forall a | a in Dedup(rows) ensures exists j :: 0 <= j < |all| && a == FormatData(j, all).value.1 {
      var j :| 0 <= j < |rows| && rows[j] == a;
    }
    forall a | (exists j :: 0 <= j < |all| && a == FormatData(j, all).value.1) ensures a in Dedup(rows) {
      var j :| 0 <= j < |all| && a == FormatData(j, all).value.1;
      assert rows[j] == a;
    }
  }

  /** Rows are compared as whole tuples: two commits by one email under two
      different names leave two author rows with that email. */
  lemma SameEmailTwoNames(all: seq<Item>, i: nat, j: nat)
    requires AllWellFormed(all) && i < |all| && j < |all|
    requires all[i].email == all[j].email && all[i].name != all[j].name
    ensures exists a, b :: a in Authors(all) && b in Authors(all) && a != b && a.email == b.email == all[i].email.value
  {
    AllFormatted(all);
    var rows := AuthorRows(all, |all|);
    DedupElements(rows);
    assert rows[i] in rows && rows[j] in rows;
    assert rows[i].name != rows[j].name;
  }

  // One author row per email

  /** The emails of a list of author rows. */
  function EmailsOf(rows: seq<AuthorRow>): set<string> {
    set r | r in rows :: r.email
  }

  /** The rows in the order first seen, keeping only the first row of each
      email: the de-duplication the `authors` table's key on `email` calls
      for. */
  function DedupByEmail(s: seq<AuthorRow>): seq<AuthorRow> {
    if s == [] then []
    else
      var kept := DedupByEmail(s[..|s| - 1]);
      if s[|s| - 1].email in EmailsOf(kept) then kept else kept + [s[|s| - 1]]
  }

  /** Every kept row is an input row, and every email of the input keeps a row. */
  lemma {:induction false} DedupByEmailElements(s: seq<AuthorRow>)
    ensures forall r :: r in DedupByEmail(s) ==> r in s
    ensures EmailsOf(DedupByEmail(s)) == EmailsOf(s)
  {
    if s != [] {
      var init, last := s[..|s| - 1], s[|s| - 1];
      DedupByEmailElements(init);
      assert s == init + [last];
      assert EmailsOf(s) == EmailsOf(init) + {last.email};
      if last.email !in EmailsOf(DedupByEmail(init)) {
        assert EmailsOf(DedupByEmail(init) + [last]) == EmailsOf(DedupByEmail(init)) + {last.email};
      }
    }
  }

  /** No two kept rows share an email. */
  lemma {:induction false} DedupByEmailKeyed(s: seq<AuthorRow>)
    ensures forall i, j :: 0 <= i < j < |DedupByEmail(s)| ==> DedupByEmail(s)[i].email != DedupByEmail(s)[j].email
  {
    if s != [] {
      var kept, last := DedupByEmail(s[..|s| - 1]), s[|s| - 1];
      DedupByEmailKeyed(s[..|s| - 1]);
      if last.email !in EmailsOf(kept) {
        var d := kept + [last];
        forall i, j | 0 <= i < j < |d| ensures d[i].email != d[j].email {
          assert d[i] == kept[i] && kept[i].email in EmailsOf(kept);
        }
      }
    }
  }

  /** Where an email always comes with the same row, keeping one row per email
      and keeping one copy of each row are the same thing. */
  lemma {:induction false} DedupByEmailAgrees(s: seq<AuthorRow>)
    requires forall i, j :: 0 <= i < |s| && 0 <= j < |s| && s[i].email == s[j].email ==> s[i] == s[j]
    ensures DedupByEmail(s) == Dedup(s)
  {
    if s != [] {
      var init, last := s[..|s| - 1], s[|s| - 1];
      assert forall k :: 0 <= k < |init| ==> init[k] == s[k];
      DedupByEmailAgrees(init);
      DedupByEmailElements(init);
      var kept := DedupByEmail(init);
      if last.email in EmailsOf(kept) {
        var r :| r in kept && r.email == last.email;
        var k :| 0 <= k < |init| && init[k] == r;
        assert s[k] == last;
      }
    }
  }

  /** The author list with one row per email. */
  function AuthorsByEmail(all: seq<Item>): seq<AuthorRow>
    requires AllWellFormed(all)
  {
    AllFormatted(all);
    DedupByEmail(AuthorRows(all, |all|))
  }

  /** One row per email: no two rows share an email, every row is the author
      row of a commit of the batch, and every email of the batch has a row. */
  lemma AuthorsByEmailKeyed(all: seq<Item>)
    requires AllWellFormed(all)
    ensures var authors := AuthorsByEmail(all);
      (forall i, j :: 0 <= i < j < |authors| ==> authors[i].email != authors[j].email)
      && (forall a :: a in authors ==> exists j :: 0 <= j < |all| && a == FormatData(j, all).value.1)
      && (forall j :: 0 <= j < |all| ==> all[j].email.value in EmailsOf(authors))
  {
    AllFormatted(all);
    var rows := AuthorRows(all, |all|);
    DedupByEmailKeyed(rows);
    DedupByEmailElements(rows);
    forall a | a in DedupByEmail(rows) ensures exists j :: 0 <= j < |all| && a == FormatData(j, all).value.1 {
      var j :| 0 <= j < |rows| && rows[j] == a;
    }
    forall j | 0 <= j < |all| ensures all[j].email.value in EmailsOf(DedupByEmail(rows)) {
      assert rows[j] in rows && rows[j].email == all[j].email.value;
    }
  }

  /** When every email in the batch comes with one name, as the table design
      assumes, the list with one row per email is the list `get_data`
      builds. */
  lemma AuthorsByEmailAgrees(all: seq<Item>)
    requires AllWellFormed(all)
    requires forall i, j :: 0 <= i < |all| && 0 <= j < |all| && all[i].email == all[j].email ==> all[i].name == all[j].name
    ensures AuthorsByEmail(all) == Authors(all)
  {
    AllFormatted(all);
    var rows := AuthorRows(all, |all|);
    forall i, j | 0 <= i < |rows| && 0 <= j < |rows| && rows[i].email == rows[j].email
      ensures rows[i] == rows[j]
    {
      SameAuthorSameRow(all, i, j);
    }
    DedupByEmailAgrees(rows);
  }
}
