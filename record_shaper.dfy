/** Shaping one raw commit into the rows stored for it: the `(email, date)`
    commit row and the `(email, name, first, last)` author row whose dates are
    found by scanning the whole fetched batch (`format_data`,
    `extract_firstlast_dates`). */
module RecordShaper {
  import opened Common
  import opened Text
  import opened Timestamps

  /** One raw commit object as the source returns it, reduced to the three
      fields read from `commit.author`; a field absent from the object is
      `None`, and reading it raises `KeyError`. */
  datatype Item = Item(email: Option<string>, name: Option<string>, date: Option<string>)

  predicate WellFormed(item: Item) {
    item.email.Some? && item.name.Some? && item.date.Some?
  }

  predicate AllWellFormed(data: seq<Item>) {
    forall i :: 0 <= i < |data| ==> WellFormed(data[i])
  }

  /** A row of the `commits` table. */
  datatype CommitRow = CommitRow(email: string, date: string)

  /** A row of the `authors` table: the author's first and last commit dates
      in the batch. */
  datatype AuthorRow = AuthorRow(email: string, name: string, first: string, last: string)

  /** The scan over the batch reads every item's email, and the date of every
      item whose email matches; it succeeds when all of those are present. */
  predicate Scannable(data: seq<Item>, email: string) {
    forall i :: 0 <= i < |data| ==>
      data[i].email.Some? && (data[i].email == Some(email) ==> data[i].date.Some?)
  }

  /** Whether `d` is the date of some commit in `data` by `email`. */
  predicate IsDateOf(data: seq<Item>, email: string, d: string) {
    exists i :: 0 <= i < |data| && data[i].email == Some(email) && data[i].date == Some(d)
  }

  lemma IsDateOfTail(data: seq<Item>, email: string)
    requires data != []
    ensures forall d :: IsDateOf(data[1..], email, d) ==> IsDateOf(data, email, d)
  {
    forall d | IsDateOf(data[1..], email, d) ensures IsDateOf(data, email, d) {
      var i :| 0 <= i < |data[1..]| && data[1..][i].email == Some(email) && data[1..][i].date == Some(d);
      assert data[i + 1] == data[1..][i];
    }
  }

  /** The list comprehension of `extract_firstlast_dates`: the dates of the
      commits by `email`, in batch order. */
  function AuthorDates(data: seq<Item>, email: string): (r: Result<seq<string>, Error>)
    ensures r.Ok? <==> Scannable(data, email)
    ensures r.Err? ==> r.error == KeyError
    ensures r.Ok? ==> forall d :: d in r.value <==> IsDateOf(data, email, d)
  {
    if data == [] then Ok([])
    else
      var head := data[0];
      var rest := AuthorDates(data[1..], email);
      if head.email.None? then Err(KeyError)
      else if head.email.value == email then
        if head.date.None? then Err(KeyError)
        else if rest.Err? then rest
        else
          IsDateOfTail(data, email);
          Ok([head.date.value] + rest.value)
      else if rest.Err? then rest
      else
        IsDateOfTail(data, email);
        rest
  }

  /** Python's `min` over a non-empty list of strings. */
  function MinStr(s: seq<string>): string
    requires |s| > 0
  {
    if |s| == 1 then s[0]
    else
      var rest := MinStr(s[1..]);
      if LexLe(s[0], rest) then s[0] else rest
  }

  /** Python's `max` over a non-empty list of strings. */
  function MaxStr(s: seq<string>): string
    requires |s| > 0
  {
    if |s| == 1 then s[0]
    else
      var rest := MaxStr(s[1..]);
      if LexLe(rest, s[0]) then s[0] else rest
  }

  /** `min` returns an element of the list that no element is below. */
  lemma {:induction false} MinStrIsLeast(s: seq<string>)
    requires |s| > 0
    ensures MinStr(s) in s
    ensures forall x :: x in s ==> LexLe(MinStr(s), x)
  {
    if |s| == 1 {
      LexLeReflexive(s[0]);
    } else {
      var rest := MinStr(s[1..]);
      MinStrIsLeast(s[1..]);
      LexLeReflexive(s[0]);
      LexLeTotal(s[0], rest);
      forall x | x in s ensures LexLe(MinStr(s), x) {
        if x != s[0] {
          assert x in s[1..];
          if LexLe(s[0], rest) {
            LexLeTransitive(s[0], rest, x);
          }
        }
      }
    }
  }

  /** `max` returns an element of the list that no element is above. */
  lemma {:induction false} MaxStrIsGreatest(s: seq<string>)
    requires |s| > 0
    ensures MaxStr(s) in s
    ensures forall x :: x in s ==> LexLe(x, MaxStr(s))
  {
    if |s| == 1 {
      LexLeReflexive(s[0]);
    } else {
      var rest := MaxStr(s[1..]);
      MaxStrIsGreatest(s[1..]);
      LexLeReflexive(s[0]);
      LexLeTotal(s[0], rest);
      forall x | x in s ensures LexLe(x, MaxStr(s)) {
        if x != s[0] {
          assert x in s[1..];
          if LexLe(rest, s[0]) {
            LexLeTransitive(x, rest, s[0]);
          }
        }
      }
    }
  }

  /** `extract_firstlast_dates(data, email, name)`: the author row whose first
      and last dates are the least and greatest date strings among the
      commits by `email`. The scan raises `KeyError` on a missing field and
      `min` raises `ValueError` when no commit has that email. */
  function ExtractFirstLastDates(data: seq<Item>, email: string, name: string): (r: Result<AuthorRow, Error>)
    ensures r.Ok? <==> Scannable(data, email) && exists d :: IsDateOf(data, email, d)
    ensures r.Err? ==> r.error == (if Scannable(data, email) then ValueError else KeyError)
    ensures r.Ok? ==> r.value.email == email && r.value.name == name
    ensures r.Ok? ==> IsDateOf(data, email, r.value.first) && IsDateOf(data, email, r.value.last)
    ensures r.Ok? ==> LexLe(r.value.first, r.value.last)
    ensures r.Ok? ==> forall d :: IsDateOf(data, email, d) ==> LexLe(r.value.first, d) && LexLe(d, r.value.last)
  {
    match AuthorDates(data, email)
    case Err(e) => Err(e)
    case Ok(dates) =>
      if dates == [] then Err(ValueError)
      else
        MinStrIsLeast(dates);
        MaxStrIsGreatest(dates);
        LexLeTransitive(MinStr(dates), dates[0], MaxStr(dates));
        Ok(AuthorRow(email, name, MinStr(dates), MaxStr(dates)))
  }

  /** `format_data(i, data)`: the commit row of item `i` and the author row
      for that item's email and name. Indexing past the batch raises
      `IndexError`; a missing field anywhere the code reads raises
      `KeyError`. Item `i` is itself one of the author's commits, so `min`
      and `max` never see an empty list. */
  function FormatData(i: nat, data: seq<Item>): (r: Result<(CommitRow, AuthorRow), Error>)
    ensures r.Ok? <==> i < |data| && WellFormed(data[i]) && Scannable(data, data[i].email.value)
    ensures r.Err? ==> r.error == (if i < |data| then KeyError else IndexError)
    ensures r.Ok? ==> r.value.0 == CommitRow(data[i].email.value, data[i].date.value)
    ensures r.Ok? ==> r.value.1.email == data[i].email.value && r.value.1.name == data[i].name.value
    ensures r.Ok? ==> LexLe(r.value.1.first, data[i].date.value) && LexLe(data[i].date.value, r.value.1.last)
  {
    if i >= |data| then Err(IndexError)
    else
      var item := data[i];
      if item.email.None? || item.date.None? then Err(KeyError)
      else if item.name.None? then Err(KeyError)
      else
        assert IsDateOf(data, item.email.value, item.date.value);
        match ExtractFirstLastDates(data, item.email.value, item.name.value)
        case Err(e) => Err(e)
        case Ok(author) => Ok((CommitRow(item.email.value, item.date.value), author))
  }

  /** The author row of `format_data` spans every commit by the same email:
      its first date is not above, and its last date not below, any of them. */
  lemma FormatDataSpansAuthor(data: seq<Item>, i: nat)
    requires FormatData(i, data).Ok?
    ensures var author := FormatData(i, data).value.1;
      author == ExtractFirstLastDates(data, data[i].email.value, data[i].name.value).value
      && forall d :: IsDateOf(data, data[i].email.value, d) ==> LexLe(author.first, d) && LexLe(d, author.last)
  {
  }

  /** In a batch of complete records, `format_data` succeeds on every index. */
  lemma FormatDataTotal(data: seq<Item>, i: nat)
    requires AllWellFormed(data) && i < |data|
    ensures FormatData(i, data).Ok?
  {
  }

  /** The author row depends on the email and name only: two commits by the
      same email and name get equal rows. */
  lemma SameAuthorSameRow(data: seq<Item>, i: nat, j: nat)
    requires AllWellFormed(data) && i < |data| && j < |data|
    requires data[i].email == data[j].email && data[i].name == data[j].name
    ensures FormatData(i, data).value.1 == FormatData(j, data).value.1
  {
  }

  /** An author with a single commit in the batch has equal first and last
      dates, both that commit's date. */
  lemma SingleCommitAuthor(data: seq<Item>, i: nat)
    requires AllWellFormed(data) && i < |data|
    requires forall j :: 0 <= j < |data| && j != i ==> data[j].email != data[i].email
    ensures var author := FormatData(i, data).value.1;
      author.first == author.last == data[i].date.value
  {
    var author := FormatData(i, data).value.1;
    var e := data[i].email.value;
    forall d | IsDateOf(data, e, d) ensures d == data[i].date.value {
      var j :| 0 <= j < |data| && data[j].email == Some(e) && data[j].date == Some(d);
    }
  }

  /** When every date in the batch is the fixed-width text of a valid
      timestamp, the first and last dates of an author are the
      chronologically earliest and latest of that author's commits
      (section 5.1 of RFC 3339), not merely the least and greatest strings. */
  lemma FirstLastChronological(data: seq<Item>, stamps: seq<Timestamp>, i: nat, author: AuthorRow)
    requires |stamps| == |data|
    requires forall j :: 0 <= j < |data| ==> Valid(stamps[j]) && data[j].date == Some(Render(stamps[j]))
    requires FormatData(i, data).Ok? && author == FormatData(i, data).value.1
    ensures Parse(author.first).Some? && Parse(author.last).Some?
    ensures forall j :: 0 <= j < |data| && data[j].email == data[i].email ==>
      ChronoLe(Parse(author.first).value, stamps[j]) && ChronoLe(stamps[j], Parse(author.last).value)
  {
    var e := data[i].email.value;
    FormatDataSpansAuthor(data, i);
    var f :| 0 <= f < |data| && data[f].email == Some(e) && data[f].date == Some(author.first);
    var l :| 0 <= l < |data| && data[l].email == Some(e) && data[l].date == Some(author.last);
    SpanChronological(data, stamps, e, f, l);
    ParseRender(stamps[f]);
    ParseRender(stamps[l]);
  }

  /** When commits `f` and `l` of an author have the least and the greatest
      date string, every commit of that author lies between them in time. */
  lemma SpanChronological(data: seq<Item>, stamps: seq<Timestamp>, e: string, f: nat, l: nat)
    requires |stamps| == |data| && f < |data| && l < |data|
    requires forall j :: 0 <= j < |data| ==> Valid(stamps[j]) && data[j].date == Some(Render(stamps[j]))
    requires forall d :: IsDateOf(data, e, d) ==> LexLe(data[f].date.value, d) && LexLe(d, data[l].date.value)
    ensures forall j :: 0 <= j < |data| && data[j].email == Some(e) ==>
      ChronoLe(stamps[f], stamps[j]) && ChronoLe(stamps[j], stamps[l])
  {
    forall j | 0 <= j < |data| && data[j].email == Some(e)
      ensures ChronoLe(stamps[f], stamps[j]) && ChronoLe(stamps[j], stamps[l])
    {
      assert IsDateOf(data, e, data[j].date.value);
      RenderOrder(stamps[f], stamps[j]);
      RenderOrder(stamps[j], stamps[l]);
    }
  }
}
