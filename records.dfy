/** The documents the forum keeps (questions, answers, notifications, users
    and tags), the identity of a caller and the status of a reply. Document
    ids are natural numbers compared by value; the store hands out fresh
    ones and never reuses them. */
module Records {
  import opened Wrappers

  type Id = nat

  /** A user's role: 'user', 'admin' or 'banned'. */
  datatype Role = User | Admin | Banned

  /** The authenticated caller of a request, as the authentication layer
      resolves it: the user id and the role stored in the credential. */
  datatype Caller = Caller(id: Id, role: Role)

  /** The HTTP status a handler answers with. */
  datatype Status = Ok | Created | BadRequest | Forbidden | NotFound | ServerError
  {
    function Code(): nat
    {
      match this
      case Ok => 200
      case Created => 201
      case BadRequest => 400
      case Forbidden => 403
      case NotFound => 404
      case ServerError => 500
    }
  }

  /** An image mirrored on the media host: its public id there (empty when
      it has none), its URL and its alt text. */
  datatype ImageRef = ImageRef(publicId: string, url: string, alt: string)

  /** A question document. `createdAt` is the time stamp the store adds. */
  datatype Question = Question(
    title: string,
    description: string,
    tags: seq<string>,
    user: Id,
    answers: seq<Id>,
    acceptedAnswer: Option<Id>,
    images: seq<ImageRef>,
    createdAt: int)

  /** An answer document; `votes` lists the users who upvoted it. */
  datatype Answer = Answer(
    description: string,
    user: Id,
    question: Id,
    votes: seq<Id>,
    images: seq<ImageRef>,
    createdAt: int)

  /** Where a notification leads: nowhere, or the page `/question/<id>`. */
  datatype Link = NoLink | QuestionPage(question: Id)

  /** A notification for `user`; `kind` is its type string. */
  datatype Notification = Notification(
    user: Id,
    kind: string,
    message: string,
    link: Link,
    isRead: bool,
    createdAt: int)

  /** A document together with its id, as a query returns it. */
  datatype Keyed<T> = Keyed(id: Id, doc: T)

  /** The documents of `m` whose ids are below `n`, in increasing id order,
      which is the order in which the store inserted them. */
  function Listing<T>(m: map<Id, T>, n: nat): (r: seq<Keyed<T>>)
    ensures forall k :: 0 <= k < |r| ==> r[k].id < n && r[k].id in m && m[r[k].id] == r[k].doc
    ensures forall i, j :: 0 <= i < j < |r| ==> r[i].id < r[j].id
    ensures forall id :: id in m && id < n ==> Keyed(id, m[id]) in r
  {
    if n == 0 then []
    else
      var r := Listing(m, n - 1);
      if n - 1 in m then r + [Keyed(n - 1, m[n - 1])] else r
  }

  /** A document that a listing holds is the one stored under its id. */
  lemma ListedIsStored<T>(m: map<Id, T>, n: nat, d: Keyed<T>)
    requires d in Listing(m, n)
    ensures d.id < n && d.id in m && m[d.id] == d.doc
  {
    var r := Listing(m, n);
    var k :| 0 <= k < |r| && r[k] == d;
  }

  /** A listing holds each document once. */
  lemma ListingHasNoDuplicates<T>(m: map<Id, T>, n: nat)
    ensures NoDuplicates(Listing(m, n))
  {
    var r := Listing(m, n);
    assert forall i, j :: 0 <= i < j < |r| ==> r[i].id < r[j].id;
  }

  /** Documents drawn from one map without repeats carry distinct ids. */
  lemma StoredIdsDistinct<T>(list: seq<Keyed<T>>, m: map<Id, T>)
    requires NoDuplicates(list)
    requires forall k :: 0 <= k < |list| ==> list[k].id in m && m[list[k].id] == list[k].doc
    ensures forall i, j :: 0 <= i < j < |list| ==> list[i].id != list[j].id
  {
    forall i, j | 0 <= i < j < |list|
      ensures list[i].id != list[j].id
    {
      assert list[i] != list[j];
    }
  }

  /** The number of elements of `s` that satisfy `p`. */
  function CountWhere<T>(s: seq<T>, p: T -> bool): nat
  {
    if s == [] then 0 else (if p(s[0]) then 1 else 0) + CountWhere(s[1..], p)
  }

  /** The elements of `s` that satisfy `p`, in order (`Array.prototype.filter`). */
  function Filter<T>(s: seq<T>, p: T -> bool): (r: seq<T>)
    ensures |r| == CountWhere(s, p)
    ensures forall k :: 0 <= k < |r| ==> r[k] in s && p(r[k])
    ensures forall k :: 0 <= k < |s| && p(s[k]) ==> s[k] in r
  {
    if s == [] then []
    else
      var rest := Filter(s[1..], p);
      assert forall k :: 0 < k < |s| ==> s[k] == s[1..][k - 1];
      if p(s[0]) then [s[0]] + rest else rest
  }

  /** Filtering only drops elements: it never repeats one. */
  lemma {:induction false} FilterIsSubMultiset<T>(s: seq<T>, p: T -> bool)
    ensures multiset(Filter(s, p)) <= multiset(s)
  {
    if s != [] {
      FilterIsSubMultiset(s[1..], p);
      assert s == [s[0]] + s[1..];
    }
  }

  /** No element occurs twice. */
  predicate NoDuplicates<T(==)>(s: seq<T>)
  {
    forall i, j :: 0 <= i < j < |s| ==> s[i] != s[j]
  }

  /** A sequence without repeats holds each element at most once. */
  lemma {:induction false} NoDuplicatesOnce<T>(s: seq<T>, x: T)
    requires NoDuplicates(s)
    ensures multiset(s)[x] <= 1
  {
    if s != [] {
      var rest := s[1..];
      assert s == [s[0]] + rest;
      assert forall k :: 0 <= k < |rest| ==> rest[k] == s[k + 1];
      NoDuplicatesOnce(rest, x);
      if s[0] == x {
        assert x !in rest;
      }
    }
  }

  /** An element found at two positions occurs at least twice. */
  lemma Twice<T>(s: seq<T>, i: int, j: int)
    requires 0 <= i < j < |s| && s[i] == s[j]
    ensures multiset(s)[s[i]] >= 2
  {
    assert s == s[..i] + [s[i]] + s[i + 1..j] + [s[j]] + s[j + 1..];
  }

  /** What is drawn from a sequence without repeats has none either. */
  lemma NoDuplicatesWithin<T>(a: seq<T>, b: seq<T>)
    requires multiset(a) <= multiset(b) && NoDuplicates(b)
    ensures NoDuplicates(a)
  {
    forall i, j | 0 <= i < j < |a|
      ensures a[i] != a[j]
    {
      if a[i] == a[j] {
        Twice(a, i, j);
        NoDuplicatesOnce(b, a[i]);
        assert false;
      }
    }
  }
}
