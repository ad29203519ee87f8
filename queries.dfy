/** The read-only queries of the forum: the question list with its tag and
    "unanswered" filters, order, paging and total, and the caller's newest
    notifications. Both run over the documents in the store's listing order;
    the free-text `search` filter is not part of this model. */
module Queries {
  import opened Wrappers
  import opened Records
  import opened Ordering

  /** The query string of a question-list request. An absent `tag` or
      `unanswered` and an empty one are both falsy, so they are strings
      here with `""` for absent; `page`, `limit` and `sort` have defaults that
      apply only when they are absent. */
  datatype QuestionQuery = QuestionQuery(
    page: Option<int>,
    limit: Option<int>,
    tag: string,
    sort: Option<string>,
    unanswered: string)

  /** The reply to a question-list request: one page and the number of
      matches, or a failure of the store (a negative skip). */
  datatype QuestionPage = Page(questions: seq<Keyed<Question>>, total: nat) | QueryFailed

  const DefaultPage := 1
  const DefaultLimit := 10
  const DefaultSort := "newest"
  const NotificationLimit := 20

  /** The filter: the tag, when given, is among the question's tags, and the
      question has no answers when `unanswered` is given. */
  predicate Matches(query: QuestionQuery, d: Keyed<Question>)
  {
    && (query.tag == "" || query.tag in d.doc.tags)
    && (query.unanswered == "" || d.doc.answers == [])
  }

  function CreatedAt(d: Keyed<Question>): int
  {
    d.doc.createdAt
  }

  function NegCreatedAt(d: Keyed<Question>): int
  {
    -d.doc.createdAt
  }

  /** `sort === 'newest'` (the default) orders by creation time descending,
      anything else ascending. */
  predicate NewestFirst(query: QuestionQuery)
  {
    query.sort.GetOr(DefaultSort) == DefaultSort
  }

  function SortKey(query: QuestionQuery): Keyed<Question> -> int
  {
    if NewestFirst(query) then NegCreatedAt else CreatedAt
  }

  function Skip(query: QuestionQuery): int
  {
    (query.page.GetOr(DefaultPage) - 1) * query.limit.GetOr(DefaultLimit)
  }

  /** The store reads a limit of 0 as "no limit" and a negative limit as
      its absolute value. */
  function Window<T>(s: seq<T>, skip: nat, limit: int): (r: seq<T>)
  {
    var rest := if skip <= |s| then s[skip..] else [];
    var n := if limit < 0 then -limit else limit;
    if n == 0 || |rest| <= n then rest else rest[..n]
  }

  /** `getQuestions`: filter, sort, skip `(page - 1) * limit`, take `limit`,
      and count all matches. */
  function GetQuestions(docs: seq<Keyed<Question>>, query: QuestionQuery): QuestionPage
  {
    var matches := Filter(docs, (d: Keyed<Question>) => Matches(query, d));
    var skip := Skip(query);
    if skip < 0 then QueryFailed
    else
      var ordered := SortBy(matches, SortKey(query));
      Page(Window(ordered, skip, query.limit.GetOr(DefaultLimit)), |matches|)
  }

  /** Every returned question is a stored question that matches the filter,
      and no more than `limit` come back when the limit is positive. */
  lemma {:induction false} GetQuestionsMatch(docs: seq<Keyed<Question>>, query: QuestionQuery)
    requires GetQuestions(docs, query).Page?
    ensures forall k :: 0 <= k < |GetQuestions(docs, query).questions| ==>
      GetQuestions(docs, query).questions[k] in docs && Matches(query, GetQuestions(docs, query).questions[k])
    ensures query.limit.GetOr(DefaultLimit) > 0 ==> |GetQuestions(docs, query).questions| <= query.limit.GetOr(DefaultLimit)
  {
    var p := (d: Keyed<Question>) => Matches(query, d);
    var matches := Filter(docs, p);
    var ordered := SortBy(matches, SortKey(query));
    var skip := Skip(query);
    var r := GetQuestions(docs, query).questions;
    assert r == Window(ordered, skip, query.limit.GetOr(DefaultLimit));
    WindowElements(ordered, skip, query.limit.GetOr(DefaultLimit));
    forall k | 0 <= k < |r|
      ensures r[k] in docs && Matches(query, r[k])
    {
      SortByMembers(matches, SortKey(query), r[k]);
    }
  }

  /** A window holds consecutive elements from `skip` on, no more than a
      positive limit. */
  lemma WindowElements<T>(s: seq<T>, skip: nat, limit: int)
    ensures var w := Window(s, skip, limit);
      && (forall k :: 0 <= k < |w| ==> skip + k < |s| && w[k] == s[skip + k])
      && (limit > 0 ==> |w| <= limit)
  {
  }

  /** A window of a sorted sequence is sorted. */
  lemma WindowSorted<T>(s: seq<T>, skip: nat, limit: int, key: T -> int)
    requires SortedBy(s, key)
    ensures SortedBy(Window(s, skip, limit), key)
  {
    var w := Window(s, skip, limit);
    if skip <= |s| {
      forall i, j | 0 <= i < j < |w|
        ensures key(w[i]) <= key(w[j])
      {
        assert w[i] == s[skip + i] && w[j] == s[skip + j];
      }
    }
  }

  /** The page is ordered newest first when `sort` is absent or `newest`,
      and oldest first otherwise. */
  lemma {:induction false} GetQuestionsOrder(docs: seq<Keyed<Question>>, query: QuestionQuery)
    requires GetQuestions(docs, query).Page?
    ensures var r := GetQuestions(docs, query).questions;
      forall i, j :: 0 <= i < j < |r| ==>
        if NewestFirst(query) then r[i].doc.createdAt >= r[j].doc.createdAt
        else r[i].doc.createdAt <= r[j].doc.createdAt
  {
    var matches := Filter(docs, (d: Keyed<Question>) => Matches(query, d));
    var key := SortKey(query);
    var ordered := SortBy(matches, key);
    var r := GetQuestions(docs, query).questions;
    assert r == Window(ordered, Skip(query), query.limit.GetOr(DefaultLimit));
    WindowSorted(ordered, Skip(query), query.limit.GetOr(DefaultLimit), key);
    assert SortedBy(r, key);
    if NewestFirst(query) {
      assert forall i, j :: 0 <= i < j < |r| ==> NegCreatedAt(r[i]) <= NegCreatedAt(r[j]);
    } else {
      assert forall i, j :: 0 <= i < j < |r| ==> CreatedAt(r[i]) <= CreatedAt(r[j]);
    }
  }

  /** The page is the stretch of the sorted matches that starts at
      `(page - 1) * limit`, and `total` counts every match whatever the page:
      a sorted reordering of the matches exists of which the page is exactly
      that stretch. */
  lemma {:induction false} GetQuestionsWindow(docs: seq<Keyed<Question>>, query: QuestionQuery)
    requires GetQuestions(docs, query).Page?
    ensures GetQuestions(docs, query).total == CountWhere(docs, (d: Keyed<Question>) => Matches(query, d))
    ensures Skip(query) >= 0
    ensures exists ordered: seq<Keyed<Question>> ::
      && multiset(ordered) == multiset(Filter(docs, (d: Keyed<Question>) => Matches(query, d)))
      && SortedBy(ordered, SortKey(query))
      && GetQuestions(docs, query).questions == Window(ordered, Skip(query), query.limit.GetOr(DefaultLimit))
  {
    var ordered := SortBy(Filter(docs, (d: Keyed<Question>) => Matches(query, d)), SortKey(query));
    assert GetQuestions(docs, query).questions == Window(ordered, Skip(query), query.limit.GetOr(DefaultLimit));
  }

  /** A negative skip, as a page below 1 with a positive limit gives, is
      refused by the store. */
  lemma NegativeSkipFails(docs: seq<Keyed<Question>>, query: QuestionQuery)
    requires query.page.GetOr(DefaultPage) < 1 && query.limit.GetOr(DefaultLimit) > 0
    ensures GetQuestions(docs, query) == QueryFailed
  {
    var p := query.page.GetOr(DefaultPage);
    var l := query.limit.GetOr(DefaultLimit);
    assert (p - 1) * l < 0 by {
      assert p - 1 < 0;
      assert (p - 1) * l <= -l;
    }
  }

  // ----- notifications -----

  function NotificationAge(d: Keyed<Notification>): int
  {
    -d.doc.createdAt
  }

  /** `getNotifications`: the caller's notifications, newest first, at most
      twenty. */
  function GetNotifications(docs: seq<Keyed<Notification>>, caller: Caller): seq<Keyed<Notification>>
  {
    var mine := Filter(docs, (d: Keyed<Notification>) => d.doc.user == caller.id);
    var ordered := SortBy(mine, NotificationAge);
    if |ordered| <= NotificationLimit then ordered else ordered[..NotificationLimit]
  }

  /** As many of the caller's notifications come back as they have, up to
      twenty, each drawn from the caller's stored ones and none returned more
      often than it is stored. */
  lemma GetNotificationsAll(docs: seq<Keyed<Notification>>, caller: Caller)
    ensures var r := GetNotifications(docs, caller);
      var mine := CountWhere(docs, (d: Keyed<Notification>) => d.doc.user == caller.id);
      && |r| == (if mine <= NotificationLimit then mine else NotificationLimit)
      && multiset(r) <= multiset(Filter(docs, (d: Keyed<Notification>) => d.doc.user == caller.id))
      && (NoDuplicates(docs) ==> NoDuplicates(r))
  {
    var mine := Filter(docs, (d: Keyed<Notification>) => d.doc.user == caller.id);
    var ordered := SortBy(mine, NotificationAge);
    var n := if |ordered| <= NotificationLimit then |ordered| else NotificationLimit;
    var r := GetNotifications(docs, caller);
    assert r == ordered[..n];
    assert ordered == r + ordered[n..];
    FilterIsSubMultiset(docs, (d: Keyed<Notification>) => d.doc.user == caller.id);
    if NoDuplicates(docs) {
      NoDuplicatesWithin(r, docs);
    }
  }

  /** Only the caller's notifications come back, at most twenty of them,
      newest first; and they are the newest: every notification of the
      caller that is left out is no newer than any that is returned. */
  lemma GetNotificationsSpec(docs: seq<Keyed<Notification>>, caller: Caller)
    ensures var r := GetNotifications(docs, caller);
      && (forall k :: 0 <= k < |r| ==> r[k] in docs && r[k].doc.user == caller.id)
      && (forall i, j :: 0 <= i < j < |r| ==> r[i].doc.createdAt >= r[j].doc.createdAt)
      && (forall d, k :: d in docs && d.doc.user == caller.id && d !in r && 0 <= k < |r| ==>
            d.doc.createdAt <= r[k].doc.createdAt)
  {
    NotificationsAreCallers(docs, caller);
    NotificationsNewestFirst(docs, caller);
    LeftOutNotificationsAreOlder(docs, caller);
  }

  /** The newest first notifications, before the cut at twenty. */
  function CallerNotificationsByAge(docs: seq<Keyed<Notification>>, caller: Caller): seq<Keyed<Notification>>
  {
    SortBy(Filter(docs, (d: Keyed<Notification>) => d.doc.user == caller.id), NotificationAge)
  }

  /** The reply is the first twenty, or all, of the caller's notifications by
      age. */
  lemma NotificationsArePrefix(docs: seq<Keyed<Notification>>, caller: Caller)
    ensures var ordered := CallerNotificationsByAge(docs, caller);
      GetNotifications(docs, caller) ==
        ordered[..if |ordered| <= NotificationLimit then |ordered| else NotificationLimit]
  {
  }

  lemma NotificationsAreCallers(docs: seq<Keyed<Notification>>, caller: Caller)
    ensures var r := GetNotifications(docs, caller);
      forall k :: 0 <= k < |r| ==> r[k] in docs && r[k].doc.user == caller.id
  {
    var mine := Filter(docs, (d: Keyed<Notification>) => d.doc.user == caller.id);
    var ordered := CallerNotificationsByAge(docs, caller);
    var r := GetNotifications(docs, caller);
    NotificationsArePrefix(docs, caller);
    forall k | 0 <= k < |r|
      ensures r[k] in docs && r[k].doc.user == caller.id
    {
      assert r[k] == ordered[k];
      SortByMembers(mine, NotificationAge, r[k]);
    }
  }

  lemma NotificationsNewestFirst(docs: seq<Keyed<Notification>>, caller: Caller)
    ensures var r := GetNotifications(docs, caller);
      forall i, j :: 0 <= i < j < |r| ==> r[i].doc.createdAt >= r[j].doc.createdAt
  {
    var ordered := CallerNotificationsByAge(docs, caller);
    var r := GetNotifications(docs, caller);
    NotificationsArePrefix(docs, caller);
    forall i, j | 0 <= i < j < |r|
      ensures r[i].doc.createdAt >= r[j].doc.createdAt
    {
      assert NotificationAge(ordered[i]) <= NotificationAge(ordered[j]);
    }
  }

  lemma LeftOutNotificationsAreOlder(docs: seq<Keyed<Notification>>, caller: Caller)
    ensures var r := GetNotifications(docs, caller);
      forall d, k :: d in docs && d.doc.user == caller.id && d !in r && 0 <= k < |r| ==>
        d.doc.createdAt <= r[k].doc.createdAt
  {
    var mine := Filter(docs, (d: Keyed<Notification>) => d.doc.user == caller.id);
    var ordered := CallerNotificationsByAge(docs, caller);
    var n := if |ordered| <= NotificationLimit then |ordered| else NotificationLimit;
    var r := GetNotifications(docs, caller);
    NotificationsArePrefix(docs, caller);
    forall d, k | d in docs && d.doc.user == caller.id && d !in r && 0 <= k < |r|
      ensures d.doc.createdAt <= r[k].doc.createdAt
    {
      var m :| 0 <= m < |docs| && docs[m] == d;
      assert d in mine;
      SortByMembers(mine, NotificationAge, d);
      NotInPrefix(ordered, n, d);
      assert r[k] in ordered[..n];
      PrefixBeforeRest(ordered, NotificationAge, n, r[k], d);
    }
  }
}
