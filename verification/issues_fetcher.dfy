/** The issue fetcher: the per-record normalization and the page loop of
    `fetch_open_bug_issues`. The HTTP requests are not modelled; the replies
    to the successive page requests are an input, and so is the clock
    reading `now`. */
module IssuesFetcher {
  import opened Results
  import opened Sequences

  /** Seconds in a day: `timedelta.days` counts whole days of this length. */
  const SecondsPerDay := 86400

  /** One element of an issue's `labels` array. */
  datatype RawLabel = RawLabel(name: string)

  /** A timestamp as sent, with the second count `strptime` reads from it
      under the format `%Y-%m-%dT%H:%M:%SZ`, or `None` when the text does
      not match that format. */
  datatype Stamp = Stamp(text: string, seconds: Option<int>)

  /** The `body` member of a record: missing, JSON `null`, or a string. */
  datatype RawBody = BodyMissing | BodyNull | BodyText(text: string)

  /** One record of the issues listing. `labels` is `None` when the member
      is missing; `isPullRequest` says whether a `pull_request` member is
      present. */
  datatype RawIssue = RawIssue(
    id: int,
    number: int,
    title: string,
    state: string,
    createdAt: Stamp,
    updatedAt: Stamp,
    comments: int,
    labels: Option<seq<RawLabel>>,
    authorAssociation: string,
    body: RawBody,
    isPullRequest: bool)

  /** A normalized issue. `body` is `None` where the record held `null`. */
  datatype Issue = Issue(
    id: int,
    number: int,
    title: string,
    state: string,
    createdAt: string,
    updatedAt: string,
    daysOpen: int,
    commentCount: int,
    labels: seq<string>,
    authorAssociation: string,
    body: Option<string>)

  /** `strptime` raised on the timestamp text `text`. */
  datatype FetchError = BadTimestamp(text: string)

  /** The reply to one page request: a JSON list of records, or a reply the
      loop stops on (the rate limit is exhausted or the status is not 200). */
  datatype PageReply = Records(records: seq<RawIssue>) | Halted

  // ---------------------------------------------------------------------
  // One record
  // ---------------------------------------------------------------------

  /** `(now - created).days`: whole days, rounded down, also for a
      negative difference. */
  function DaysBetween(now: int, created: int): (days: int)
    ensures days * SecondsPerDay <= now - created < (days + 1) * SecondsPerDay
  {
    (now - created) / SecondsPerDay
  }

  /** `[label["name"] for label in raw_issue.get("labels", [])]` */
  function LabelNames(labels: Option<seq<RawLabel>>): (names: seq<string>)
    ensures labels.None? ==> names == []
    ensures labels.Some? ==>
      (|names| == |labels.value| && forall i :: 0 <= i < |names| ==> names[i] == labels.value[i].name)
  {
    match labels
    case None => []
    case Some(ls) => Names(ls)
  }

  function Names(ls: seq<RawLabel>): (names: seq<string>)
    ensures |names| == |ls| && forall i :: 0 <= i < |ls| ==> names[i] == ls[i].name
  {
    if ls == [] then [] else [ls[0].name] + Names(ls[1..])
  }

  /** `raw_issue.get("body", "")`: the default applies only to a missing
      member, so a `null` body stays `None`. */
  function BodyText(body: RawBody): (text: Option<string>)
    ensures body.BodyMissing? ==> text == Some("")
    ensures body.BodyNull? ==> text == None
    ensures body.BodyText? ==> text == Some(body.text)
  {
    match body
    case BodyMissing => Some("")
    case BodyNull => None
    case BodyText(t) => Some(t)
  }

  /** The mapping from a record that is not a pull request to the issue
      schema. Both timestamps are parsed, `created_at` first; a timestamp
      `strptime` rejects makes the whole call fail. */
  function Normalize(raw: RawIssue, now: int): (r: Result<Issue, FetchError>)
    ensures r.Success? <==> raw.createdAt.seconds.Some? && raw.updatedAt.seconds.Some?
    ensures raw.createdAt.seconds.None? ==> r == Failure(BadTimestamp(raw.createdAt.text))
    ensures raw.createdAt.seconds.Some? && raw.updatedAt.seconds.None? ==>
      r == Failure(BadTimestamp(raw.updatedAt.text))
    ensures r.Success? ==>
      var days := r.value.daysOpen;
      var age := now - raw.createdAt.seconds.value;
      days * SecondsPerDay <= age < (days + 1) * SecondsPerDay
    ensures r.Success? ==> r.value.labels == LabelNames(raw.labels) && r.value.body == BodyText(raw.body)
    ensures r.Success? ==> r.value.createdAt == raw.createdAt.text && r.value.updatedAt == raw.updatedAt.text
    ensures r.Success? ==>
      r.value.id == raw.id && r.value.number == raw.number && r.value.title == raw.title &&
      r.value.state == raw.state && r.value.commentCount == raw.comments &&
      r.value.authorAssociation == raw.authorAssociation
  {
    match raw.createdAt.seconds
    case None => Failure(BadTimestamp(raw.createdAt.text))
    case Some(created) =>
      match raw.updatedAt.seconds
      case None => Failure(BadTimestamp(raw.updatedAt.text))
      case Some(_) =>
        Success(Issue(
          raw.id, raw.number, raw.title, raw.state,
          raw.createdAt.text, raw.updatedAt.text,
          DaysBetween(now, created),
          raw.comments,
          LabelNames(raw.labels),
          raw.authorAssociation,
          BodyText(raw.body)))
  }

  /** A day less one second is still zero days: the count is floored, not
      rounded; one second before creation is day -1, as with `timedelta`. */
  lemma DaysAreFloored()
    ensures DaysBetween(86399, 0) == 0
    ensures DaysBetween(86400, 0) == 1
    ensures DaysBetween(0, 1) == -1
  {
  }

  // ---------------------------------------------------------------------
  // Reference definition of the whole fetch
  // ---------------------------------------------------------------------

  /** The records the loop can reach: the pages in order, up to the first
      reply it stops on or the first empty page. */
  function Stream(pages: seq<PageReply>): seq<RawIssue> {
    if pages == [] then []
    else match pages[0]
      case Halted => []
      case Records(rs) => if rs == [] then [] else rs + Stream(pages[1..])
  }

  /** The records that are not pull requests, in order. */
  function Accepted(raws: seq<RawIssue>): (issues: seq<RawIssue>)
    ensures |issues| <= |raws|
  {
    if raws == [] then []
    else (if raws[0].isPullRequest then [] else [raws[0]]) + Accepted(raws[1..])
  }

  /** Pull requests are dropped and nothing else is. */
  lemma {:induction false} AcceptedMembers(raws: seq<RawIssue>)
    ensures forall r :: r in Accepted(raws) <==> r in raws && !r.isPullRequest
  {
    if raws != [] {
      AcceptedMembers(raws[1..]);
      assert forall r :: r in raws <==> r == raws[0] || r in raws[1..];
    }
  }

  /** The first `n` elements, none when `n` is not positive. */
  function FirstN<T>(xs: seq<T>, n: int): (r: seq<T>)
    ensures |r| == if n <= 0 then 0 else if n < |xs| then n else |xs|
    ensures r == xs[..|r|]
  {
    if n <= 0 then [] else if n < |xs| then xs[..n] else xs
  }

  /** Every record normalized, or the error of the first one that fails. */
  function NormalizeAll(raws: seq<RawIssue>, now: int): (r: Result<seq<Issue>, FetchError>)
    ensures r.Success? ==> |r.value| == |raws|
  {
    if raws == [] then Success([])
    else
      match Normalize(raws[0], now)
      case Failure(e) => Failure(e)
      case Success(issue) =>
        match NormalizeAll(raws[1..], now)
        case Failure(e) => Failure(e)
        case Success(rest) => Success([issue] + rest)
  }

  /** A successful normalization maps every record, in order. */
  lemma {:induction false} NormalizeAllSuccess(raws: seq<RawIssue>, now: int)
    requires NormalizeAll(raws, now).Success?
    ensures |NormalizeAll(raws, now).value| == |raws|
    ensures forall i :: 0 <= i < |raws| ==> Normalize(raws[i], now) == Success(NormalizeAll(raws, now).value[i])
  {
    if raws != [] {
      NormalizeAllSuccess(raws[1..], now);
    }
  }

  /** A failed normalization reports the error of the first failing record. */
  lemma {:induction false} NormalizeAllFailure(raws: seq<RawIssue>, now: int)
    requires NormalizeAll(raws, now).Failure?
    ensures exists i :: (0 <= i < |raws| && Normalize(raws[i], now) == Failure(NormalizeAll(raws, now).error)
                         && forall j :: 0 <= j < i ==> Normalize(raws[j], now).Success?)
  {
    var e := NormalizeAll(raws, now).error;
    if Normalize(raws[0], now).Failure? {
      assert Normalize(raws[0], now) == Failure(e);
    } else {
      NormalizeAllFailure(raws[1..], now);
      var i :| 0 <= i < |raws[1..]| && Normalize(raws[1..][i], now) == Failure(e)
        && (forall j :: 0 <= j < i ==> Normalize(raws[1..][j], now).Success?);
      assert Normalize(raws[i + 1], now) == Failure(e);
      assert forall j :: 0 < j < i + 1 ==> Normalize(raws[j], now) == Normalize(raws[1..][j - 1], now);
    }
  }

  /** Normalization fails exactly when some record has a timestamp
      `strptime` rejects. */
  lemma NormalizeAllFailsOnBadStamp(raws: seq<RawIssue>, now: int)
    ensures NormalizeAll(raws, now).Failure? <==>
      exists i :: 0 <= i < |raws| && (raws[i].createdAt.seconds.None? || raws[i].updatedAt.seconds.None?)
  {
    if NormalizeAll(raws, now).Failure? {
      NormalizeAllFailure(raws, now);
    } else {
      NormalizeAllSuccess(raws, now);
    }
  }

  /** What `fetch_open_bug_issues` returns: the first `maxIssues` records of
      the reachable stream that are not pull requests, normalized. */
  function FetchSpec(pages: seq<PageReply>, maxIssues: int, now: int): Result<seq<Issue>, FetchError> {
    NormalizeAll(FirstN(Accepted(Stream(pages)), maxIssues), now)
  }

  // ---------------------------------------------------------------------
  // Algebra of the reference definition
  // ---------------------------------------------------------------------

  lemma {:induction false} AcceptedAppend(a: seq<RawIssue>, b: seq<RawIssue>)
    ensures Accepted(a + b) == Accepted(a) + Accepted(b)
  {
    if a == [] {
      assert a + b == b;
    } else {
      assert (a + b)[1..] == a[1..] + b;
      AcceptedAppend(a[1..], b);
    }
  }

  lemma FirstNAppend<T>(a: seq<T>, b: seq<T>, n: int)
    ensures FirstN(a + b, n) == FirstN(a, n) + FirstN(b, n - |a|)
  {
    if n <= 0 {
    } else if n < |a| {
      assert (a + b)[..n] == a[..n];
    } else if n < |a| + |b| {
      assert (a + b)[..n] == a + b[..n - |a|];
    } else {
      assert FirstN(b, n - |a|) == b;
    }
  }

  /** Running two normalizations one after the other. */
  function Then(first: Result<seq<Issue>, FetchError>, second: Result<seq<Issue>, FetchError>): Result<seq<Issue>, FetchError> {
    match first
    case Failure(e) => Failure(e)
    case Success(xs) =>
      match second
      case Failure(e) => Failure(e)
      case Success(ys) => Success(xs + ys)
  }

  lemma {:induction false} NormalizeAllAppend(a: seq<RawIssue>, b: seq<RawIssue>, now: int)
    ensures NormalizeAll(a + b, now) == Then(NormalizeAll(a, now), NormalizeAll(b, now))
  {
    if a == [] {
      assert a + b == b;
      match NormalizeAll(b, now)
      case Failure(_) =>
      case Success(ys) =>
        assert [] + ys == ys;
    } else {
      assert (a + b)[1..] == a[1..] + b;
      assert (a + b)[0] == a[0];
      NormalizeAllAppend(a[1..], b, now);
      match NormalizeAll(a[1..], now)
      case Failure(_) =>
      case Success(xs) =>
        match NormalizeAll(b, now)
        case Failure(_) =>
        case Success(ys) =>
          match Normalize(a[0], now)
          case Failure(_) =>
          case Success(x) =>
            assert [x] + (xs + ys) == ([x] + xs) + ys;
    }
  }

  lemma {:induction false} StreamOfPrefix(pages: seq<PageReply>, k: nat)
    requires k < |pages| && (pages[k].Halted? || pages[k].records == [])
    ensures Stream(pages) == Stream(pages[..k])
  {
    if k > 0 {
      assert pages[..k][1..] == pages[1..][..k - 1];
      StreamOfPrefix(pages[1..], k - 1);
    }
  }

  /** Accumulation stops at the first empty page: the pages after it never
      change the result. */
  lemma EmptyPageEndsFetch(pages: seq<PageReply>, k: nat, maxIssues: int, now: int)
    requires k < |pages| && (pages[k].Halted? || pages[k].records == [])
    ensures FetchSpec(pages, maxIssues, now) == FetchSpec(pages[..k], maxIssues, now)
  {
    StreamOfPrefix(pages, k);
  }

  /** The fetched issues come from records that are not pull requests, in
      the order of the pages and of the records within each page. */
  lemma FetchedIssuesAreIssues(pages: seq<PageReply>, maxIssues: int, now: int)
    requires FetchSpec(pages, maxIssues, now).Success?
    ensures var issues := FetchSpec(pages, maxIssues, now).value;
      var source := FirstN(Accepted(Stream(pages)), maxIssues);
      && |issues| == |source|
      && source == Accepted(Stream(pages))[..|source|]
      && forall i :: 0 <= i < |issues| ==>
           !source[i].isPullRequest && source[i] in Stream(pages) && Normalize(source[i], now) == Success(issues[i])
  {
    var source := FirstN(Accepted(Stream(pages)), maxIssues);
    NormalizeAllSuccess(source, now);
    AcceptedMembers(Stream(pages));
    forall i | 0 <= i < |source|
      ensures source[i] in Accepted(Stream(pages))
    {
      assert source[i] == Accepted(Stream(pages))[i];
    }
  }

  /** No more than `maxIssues` issues, and none at all when it is not
      positive. */
  lemma FetchIsCapped(pages: seq<PageReply>, maxIssues: int, now: int)
    requires FetchSpec(pages, maxIssues, now).Success?
    ensures |FetchSpec(pages, maxIssues, now).value| <= if maxIssues < 0 then 0 else maxIssues
    ensures maxIssues <= 0 ==> FetchSpec(pages, maxIssues, now).value == []
  {
    NormalizeAllSuccess(FirstN(Accepted(Stream(pages)), maxIssues), now);
  }

  // ---------------------------------------------------------------------
  // The loops
  // ---------------------------------------------------------------------

  lemma AcceptedSnoc(rs: seq<RawIssue>, k: nat)
    requires k < |rs|
    ensures Accepted(rs[..k + 1]) == Accepted(rs[..k]) + (if rs[k].isPullRequest then [] else [rs[k]])
  {
    assert rs[..k + 1] == rs[..k] + [rs[k]];
    AcceptedAppend(rs[..k], [rs[k]]);
    assert [rs[k]][1..] == [];
  }

  lemma AcceptedSplit(rs: seq<RawIssue>, k: nat)
    requires k <= |rs|
    ensures Accepted(rs) == Accepted(rs[..k]) + Accepted(rs[k..])
  {
    assert rs == rs[..k] + rs[k..];
    AcceptedAppend(rs[..k], rs[k..]);
  }

  /** The record at `k` is the next one the filter lets through. */
  lemma NextAccepted(rs: seq<RawIssue>, k: nat)
    requires k < |rs| && !rs[k].isPullRequest
    ensures Accepted(rs) == Accepted(rs[..k]) + [rs[k]] + Accepted(rs[k + 1..])
  {
    AcceptedSplit(rs, k + 1);
    AcceptedSnoc(rs, k);
  }

  lemma NormalizeOne(raw: RawIssue, now: int)
    ensures NormalizeAll([raw], now) == match Normalize(raw, now)
      case Failure(e) => Failure(e)
      case Success(x) => Success([x])
  {
    assert [raw][1..] == [];
    match Normalize(raw, now)
    case Failure(_) =>
    case Success(x) =>
      assert [x] + [] == [x];
  }

  /** The first `room` accepted records of a page, when the record at `k`
      is accepted and fewer than `room` were accepted before it. */
  lemma TakeThrough(rs: seq<RawIssue>, k: nat, room: int)
    requires k < |rs| && !rs[k].isPullRequest && |Accepted(rs[..k])| < room
    ensures FirstN(Accepted(rs), room) ==
      Accepted(rs[..k]) + [rs[k]] + FirstN(Accepted(rs[k + 1..]), room - |Accepted(rs[..k])| - 1)
  {
    NextAccepted(rs, k);
    FirstNAppend(Accepted(rs[..k]) + [rs[k]], Accepted(rs[k + 1..]), room);
  }

  /** Normalizing through a failing record fails with its error. */
  lemma FailsAt(done: seq<RawIssue>, raw: RawIssue, rest: seq<RawIssue>, issues: seq<Issue>, now: int, e: FetchError)
    requires NormalizeAll(done, now) == Success(issues)
    requires Normalize(raw, now) == Failure(e)
    ensures NormalizeAll(done + [raw] + rest, now) == Failure(e)
  {
    NormalizeAllAppend(done + [raw], rest, now);
    NormalizeAllAppend(done, [raw], now);
    NormalizeOne(raw, now);
  }

  /** Normalizing one more successful record extends the result. */
  lemma SucceedsAt(done: seq<RawIssue>, raw: RawIssue, issues: seq<Issue>, now: int, x: Issue)
    requires NormalizeAll(done, now) == Success(issues)
    requires Normalize(raw, now) == Success(x)
    ensures NormalizeAll(done + [raw], now) == Success(issues + [x])
  {
    NormalizeAllAppend(done, [raw], now);
    NormalizeOne(raw, now);
  }

  /** The `for raw_issue in issues_data` loop over one page, entered with
      `issues` already collected and fewer than `maxIssues` of them. It
      returns the extended list, or the error `strptime` raised. */
  method ProcessPage(rs: seq<RawIssue>, issues: seq<Issue>, maxIssues: int, now: int)
    returns (out: seq<Issue>, err: Option<FetchError>)
    requires |issues| < maxIssues
    ensures err.Some? ==> NormalizeAll(FirstN(Accepted(rs), maxIssues - |issues|), now) == Failure(err.value)
    ensures err.None? ==>
      (|issues| <= |out| && out[..|issues|] == issues
       && NormalizeAll(FirstN(Accepted(rs), maxIssues - |issues|), now) == Success(out[|issues|..]))
  {
    var room := maxIssues - |issues|;
    var added: seq<Issue> := [];
    var k := 0;
    assert Accepted(rs[..k]) == [];
    while k < |rs|
      invariant 0 <= k <= |rs|
      invariant |added| < room
      invariant NormalizeAll(Accepted(rs[..k]), now) == Success(added)
    {
      var raw := rs[k];
      if raw.isPullRequest {
        SkipStep(rs, k, now);
      } else {
        match Normalize(raw, now)
        case Failure(e) =>
          FailStep(rs, k, room, added, now, e);
          return issues, Some(e);
        case Success(x) =>
          AcceptStep(rs, k, added, now, x);
          added := added + [x];
          if |issues| + |added| >= maxIssues {
            CapStep(rs, k + 1, room, added, now);
            out := issues + added;
            assert out[|issues|..] == added;
            return out, None;
          }
      }
      k := k + 1;
    }
    assert rs[..k] == rs;
    out := issues + added;
    assert out[|issues|..] == added;
    return out, None;
  }

  /** A pull request leaves the collected issues as they are. */
  lemma SkipStep(rs: seq<RawIssue>, k: nat, now: int)
    requires k < |rs| && rs[k].isPullRequest
    ensures NormalizeAll(Accepted(rs[..k + 1]), now) == NormalizeAll(Accepted(rs[..k]), now)
  {
    AcceptedSnoc(rs, k);
    assert Accepted(rs[..k]) + [] == Accepted(rs[..k]);
  }

  /** An issue that normalizes is appended. */
  lemma AcceptStep(rs: seq<RawIssue>, k: nat, added: seq<Issue>, now: int, x: Issue)
    requires k < |rs| && !rs[k].isPullRequest
    requires NormalizeAll(Accepted(rs[..k]), now) == Success(added)
    requires Normalize(rs[k], now) == Success(x)
    ensures NormalizeAll(Accepted(rs[..k + 1]), now) == Success(added + [x])
  {
    AcceptedSnoc(rs, k);
    SucceedsAt(Accepted(rs[..k]), rs[k], added, now, x);
  }

  /** An issue that fails to normalize, met while there is room, fails the
      page. */
  lemma FailStep(rs: seq<RawIssue>, k: nat, room: int, added: seq<Issue>, now: int, e: FetchError)
    requires k < |rs| && !rs[k].isPullRequest && |added| < room
    requires NormalizeAll(Accepted(rs[..k]), now) == Success(added)
    requires Normalize(rs[k], now) == Failure(e)
    ensures NormalizeAll(FirstN(Accepted(rs), room), now) == Failure(e)
  {
    TakeThrough(rs, k, room);
    FailsAt(Accepted(rs[..k]), rs[k], FirstN(Accepted(rs[k + 1..]), room - |Accepted(rs[..k])| - 1), added, now, e);
  }

  /** Once the page has filled the room, the rest of it is not read. */
  lemma CapStep(rs: seq<RawIssue>, k: nat, room: int, added: seq<Issue>, now: int)
    requires k <= |rs| && 0 < room == |added|
    requires NormalizeAll(Accepted(rs[..k]), now) == Success(added)
    ensures NormalizeAll(FirstN(Accepted(rs), room), now) == Success(added)
  {
    AcceptedSplit(rs, k);
    FirstNAppend(Accepted(rs[..k]), Accepted(rs[k..]), room);
    assert FirstN(Accepted(rs[..k]), room) == Accepted(rs[..k]);
    assert Accepted(rs[..k]) + [] == Accepted(rs[..k]);
  }

  lemma StreamStep(pages: seq<PageReply>, page: nat)
    requires page < |pages| && pages[page].Records? && pages[page].records != []
    ensures Stream(pages[page..]) == pages[page].records + Stream(pages[page + 1..])
  {
    assert pages[page..][1..] == pages[page + 1..];
  }

  /** Reading one more page moves its records from the unread stream to the
      records seen. */
  lemma NextPage(pages: seq<PageReply>, page: nat, acc: seq<RawIssue>)
    requires page < |pages| && pages[page].Records? && pages[page].records != []
    requires Stream(pages) == acc + Stream(pages[page..])
    ensures Stream(pages) == acc + (pages[page].records + Stream(pages[page + 1..]))
    ensures Stream(pages) == (acc + pages[page].records) + Stream(pages[page + 1..])
  {
    StreamStep(pages, page);
  }

  lemma StreamStops(pages: seq<PageReply>, page: nat)
    requires page <= |pages|
    requires page == |pages| || pages[page].Halted? || pages[page].records == []
    ensures Stream(pages[page..]) == []
  {
  }

  /** While fewer than `maxIssues` were collected, all accepted records
      were taken. */
  lemma UnderCapTakesAll(acc: seq<RawIssue>, maxIssues: int)
    requires |Accepted(acc)| < maxIssues
    ensures FirstN(Accepted(acc), maxIssues) == Accepted(acc)
  {
  }

  /** The records seen so far followed by a page that was read whole. */
  lemma PageReadWhole(acc: seq<RawIssue>, rs: seq<RawIssue>, issues: seq<Issue>, out: seq<Issue>, maxIssues: int, now: int)
    requires |issues| < maxIssues && |Accepted(acc)| == |issues|
    requires NormalizeAll(FirstN(Accepted(acc), maxIssues), now) == Success(issues)
    requires |issues| <= |out| && out[..|issues|] == issues
    requires NormalizeAll(FirstN(Accepted(rs), maxIssues - |issues|), now) == Success(out[|issues|..])
    ensures NormalizeAll(FirstN(Accepted(acc + rs), maxIssues), now) == Success(out)
    ensures |out| < maxIssues ==> |Accepted(acc + rs)| == |out|
  {
    var head := Accepted(acc);
    var page := FirstN(Accepted(rs), maxIssues - |issues|);
    UnderCapAppend(acc, rs, maxIssues);
    UnderCapTakesAll(acc, maxIssues);
    NormalizeAllAppend(head, page, now);
    PrefixAndRest(out, |issues|);
    AcceptedAppend(acc, rs);
  }

  /** Below the cap, the records kept from `acc + rs` are all of `acc`'s
      followed by as many of `rs`'s as there is room for. */
  lemma UnderCapAppend(acc: seq<RawIssue>, rs: seq<RawIssue>, maxIssues: int)
    requires |Accepted(acc)| < maxIssues
    ensures FirstN(Accepted(acc + rs), maxIssues) == Accepted(acc) + FirstN(Accepted(rs), maxIssues - |Accepted(acc)|)
  {
    AcceptedAppend(acc, rs);
    FirstNAppend(Accepted(acc), Accepted(rs), maxIssues);
    UnderCapTakesAll(acc, maxIssues);
  }

  /** A page on which normalization failed makes the whole fetch fail. */
  lemma PageFailed(acc: seq<RawIssue>, rs: seq<RawIssue>, more: seq<RawIssue>, issues: seq<Issue>, maxIssues: int, now: int, e: FetchError)
    requires |issues| < maxIssues && |Accepted(acc)| == |issues|
    requires NormalizeAll(FirstN(Accepted(acc), maxIssues), now) == Success(issues)
    requires NormalizeAll(FirstN(Accepted(rs), maxIssues - |issues|), now) == Failure(e)
    ensures NormalizeAll(FirstN(Accepted(acc + (rs + more)), maxIssues), now) == Failure(e)
  {
    var room := maxIssues - |issues|;
    var seen := Accepted(acc);
    var head := FirstN(Accepted(rs), room);
    var tail := FirstN(Accepted(more), room - |Accepted(rs)|);
    assert FirstN(Accepted(rs + more), room) == head + tail by {
      AcceptedAppend(rs, more);
      FirstNAppend(Accepted(rs), Accepted(more), room);
    }
    assert FirstN(Accepted(acc + (rs + more)), maxIssues) == seen + (head + tail) by {
      AcceptedAppend(acc, rs + more);
      FirstNAppend(seen, Accepted(rs + more), maxIssues);
      UnderCapTakesAll(acc, maxIssues);
    }
    assert NormalizeAll(head + tail, now) == Failure(e) by {
      NormalizeAllAppend(head, tail, now);
    }
    assert NormalizeAll(seen, now) == Success(issues) by {
      UnderCapTakesAll(acc, maxIssues);
    }
    NormalizeAllAppend(seen, head + tail, now);
  }

  /** Once `maxIssues` issues are collected, later records do not matter. */
  lemma CapReached(acc: seq<RawIssue>, more: seq<RawIssue>, maxIssues: int)
    requires |Accepted(acc)| >= maxIssues
    ensures FirstN(Accepted(acc + more), maxIssues) == FirstN(Accepted(acc), maxIssues)
  {
    AcceptedAppend(acc, more);
    FirstNAppend(Accepted(acc), Accepted(more), maxIssues);
  }

  /** The loop has ended: the stream ran out or the cap was reached. The
      closing `[:max_issues]` slice then changes nothing. */
  lemma FinishFetch(pages: seq<PageReply>, page: nat, acc: seq<RawIssue>, issues: seq<Issue>, maxIssues: int, now: int)
    requires page <= |pages|
    requires Stream(pages) == acc + Stream(pages[page..])
    requires NormalizeAll(FirstN(Accepted(acc), maxIssues), now) == Success(issues)
    requires Stream(pages[page..]) == [] || |issues| >= maxIssues
    ensures FetchSpec(pages, maxIssues, now) == Success(SliceTo(issues, maxIssues))
    ensures |SliceTo(issues, maxIssues)| <= if maxIssues < 0 then 0 else maxIssues
  {
    if Stream(pages[page..]) == [] {
      assert acc + [] == acc;
    } else {
      CapReached(acc, Stream(pages[page..]), maxIssues);
    }
  }

  /** Python's `xs[:n]`: a negative `n` counts from the end. */
  function SliceTo<T>(xs: seq<T>, n: int): (r: seq<T>)
    ensures |r| <= |xs| && r == xs[..|r|]
    ensures n >= 0 ==> |r| == if n < |xs| then n else |xs|
    ensures n < 0 ==> |r| == if |xs| + n > 0 then |xs| + n else 0
  {
    if n >= 0 then (if n < |xs| then xs[..n] else xs)
    else if |xs| + n > 0 then xs[..|xs| + n] else []
  }

  /** `fetch_open_bug_issues(repo, max_issues)` over the replies `pages` to
      the successive page requests, with the clock reading `now`. */
  method FetchOpenBugIssues(pages: seq<PageReply>, maxIssues: int, now: int)
    returns (r: Result<seq<Issue>, FetchError>)
    ensures r == FetchSpec(pages, maxIssues, now)
    ensures r.Success? ==> |r.value| <= if maxIssues < 0 then 0 else maxIssues
  {
    var issues: seq<Issue> := [];
    var page := 0;
    ghost var acc: seq<RawIssue> := [];
    while |issues| < maxIssues
      invariant 0 <= page <= |pages|
      invariant Stream(pages) == acc + Stream(pages[page..])
      invariant NormalizeAll(FirstN(Accepted(acc), maxIssues), now) == Success(issues)
      invariant |issues| < maxIssues ==> |Accepted(acc)| == |issues|
      decreases |pages| - page
    {
      if page == |pages| || pages[page].Halted? || pages[page].records == [] {
        StreamStops(pages, page);
        assert acc + [] == acc;
        break;
      }
      var rs := pages[page].records;
      NextPage(pages, page, acc);
      var out, err := ProcessPage(rs, issues, maxIssues, now);
      if err.Some? {
        PageFailed(acc, rs, Stream(pages[page + 1..]), issues, maxIssues, now, err.value);
        return Failure(err.value);
      }
      PageReadWhole(acc, rs, issues, out, maxIssues, now);
      issues := out;
      acc := acc + rs;
      page := page + 1;
    }
    FinishFetch(pages, page, acc, issues, maxIssues, now);
    r := Success(SliceTo(issues, maxIssues));
  }
}
