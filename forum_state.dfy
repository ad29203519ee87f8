/** The forum's documents as one value, and what each request handler does
    to it: the status it answers with and the state it leaves behind. The
    `Store` class in module `Forum` performs the same steps on its fields
    and is proved to end in exactly these states.

    Callers are identified by id and role as the authentication layer hands
    them over; an id is compared by value, and the role checked is the one in
    the credential. A body field the request leaves out is `None`. A document
    is only stored when it passes its schema's `required` checks, and a failed
    check is answered with 500 and stores nothing. */
module ForumState {
  import opened Wrappers
  import opened Records
  import opened ImageScan

  /** Every collection of the store, and the counter fresh ids are drawn
      from: ids are never reused. */
  datatype State = State(
    questions: map<Id, Question>,
    answers: map<Id, Answer>,
    users: map<Id, Role>,
    notifications: map<Id, Notification>,
    tags: seq<string>,
    nextId: nat)

  /** The status of a handler and the state it leaves behind. */
  datatype Outcome = Outcome(status: Status, state: State)

  const QuestionPostedKind := "question_posted"
  const QuestionPostedMessage := "Your question has been posted successfully!"
  const AnswerKind := "answer"
  const AnswerMessage := "Your question received a new answer!"

  /** A body field that is present and not the empty string. */
  predicate Truthy(v: Option<string>)
  {
    v.Some? && v.value != ""
  }

  /** `v || current`. */
  function Or(v: Option<string>, current: string): (r: string)
    ensures Truthy(v) ==> r == v.value
    ensures !Truthy(v) ==> r == current
  {
    if Truthy(v) then v.value else current
  }

  /** The text the image scan sees for a description: an omitted one is the
      string "undefined". */
  function ContentText(description: Option<string>): string
  {
    if description.Some? then description.value else "undefined"
  }

  /** The schema's `required` checks on a question: a non-empty title and
      description and no empty tag. */
  predicate QuestionRequired(d: Question)
  {
    d.title != "" && d.description != "" && forall k :: 0 <= k < |d.tags| ==> d.tags[k] != ""
  }

  /** The schema's `required` check on an answer: a non-empty description. */
  predicate AnswerRequired(d: Answer)
  {
    d.description != ""
  }

  /** The rule for editing and deleting a question or an answer. */
  predicate OwnerOrAdmin(c: Caller, owner: Id)
  {
    owner == c.id || c.role == Admin
  }

  /** `ids` with every occurrence of `x` pulled out (`$pull`). */
  function Pull(ids: seq<Id>, x: Id): (r: seq<Id>)
    ensures x !in r
    ensures forall y :: y in r <==> y in ids && y != x
    ensures |r| <= |ids|
  {
    if ids == [] then []
    else if ids[0] == x then Pull(ids[1..], x)
    else [ids[0]] + Pull(ids[1..], x)
  }

  // ----- the store's invariant -----

  /** The links of one question: the answers it lists and the one it
      accepted were issued before, and those that still exist answer it. */
  predicate QuestionLinked(s: State, q: Id)
    requires q in s.questions
  {
    var d := s.questions[q];
    && (forall a :: a in d.answers ==> a < s.nextId && (a in s.answers ==> s.answers[a].question == q))
    && (d.acceptedAnswer.Some? ==>
          d.acceptedAnswer.value < s.nextId &&
          (d.acceptedAnswer.value in s.answers ==> s.answers[d.acceptedAnswer.value].question == q))
  }

  /** What every handler keeps true: ids below the counter, stored
      documents that pass their schema, no user twice in an answer's votes,
      question links as above, and tag names unique and non-empty. */
  predicate Consistent(s: State)
  {
    && (forall q :: q in s.questions ==> q < s.nextId && QuestionRequired(s.questions[q]) && QuestionLinked(s, q))
    && (forall a :: a in s.answers ==> a < s.nextId && AnswerRequired(s.answers[a]) && NoDuplicates(s.answers[a].votes))
    && (forall n :: n in s.notifications ==> n < s.nextId)
    && NoDuplicates(s.tags)
    && (forall k :: 0 <= k < |s.tags| ==> s.tags[k] != "")
  }

  // ----- answers -----

  /** Stores a new answer by the caller to `question` with no votes, and
      appends its id to that question's answers when the question exists. */
  function PostAnswer(s: State, c: Caller, question: Id, description: Option<string>,
                      images: seq<ImageRef>, now: int): (r: Outcome)
    ensures r.status == Created <==> Truthy(description)
    ensures r.status != Created ==> r.status == ServerError && r.state == s
    ensures r.status == Created ==>
      && r.state.answers == s.answers[s.nextId := Answer(description.value, c.id, question, [], images, now)]
      && r.state.nextId == s.nextId + 1
      && r.state.questions.Keys == s.questions.Keys
      && (question in s.questions ==>
            r.state.questions[question] == s.questions[question].(answers := s.questions[question].answers + [s.nextId]))
      && (forall q :: q in s.questions && q != question ==> r.state.questions[q] == s.questions[q])
      && r.state.users == s.users && r.state.notifications == s.notifications && r.state.tags == s.tags
  {
    if !Truthy(description) then Outcome(ServerError, s)
    else
      var id := s.nextId;
      var questions :=
        if question in s.questions
        then s.questions[question := s.questions[question].(answers := s.questions[question].answers + [id])]
        else s.questions;
      Outcome(Created, s.(answers := s.answers[id := Answer(description.value, c.id, question, [], images, now)],
                          questions := questions, nextId := id + 1))
  }

  /** `createAnswer`: an answer without images. The question is not looked
      up first, so an answer to a missing question is stored all the same. */
  function CreateAnswer(s: State, c: Caller, question: Id, description: Option<string>, now: int): Outcome
  {
    PostAnswer(s, c, question, description, [], now)
  }

  /** `updateAnswer`: a truthy description replaces the old one; nothing else
      about the answer changes. */
  function UpdateAnswer(s: State, c: Caller, id: Id, description: Option<string>): (r: Outcome)
    ensures r.status == NotFound <==> id !in s.answers
    ensures r.status == Forbidden <==> id in s.answers && !OwnerOrAdmin(c, s.answers[id].user)
    ensures r.status != Ok ==> r.state == s
    ensures r.status == Ok ==>
      && r.state.(answers := s.answers) == s
      && r.state.answers.Keys == s.answers.Keys
      && (forall a :: a in s.answers && a != id ==> r.state.answers[a] == s.answers[a])
      && r.state.answers[id] == s.answers[id].(description := Or(description, s.answers[id].description))
  {
    if id !in s.answers then Outcome(NotFound, s)
    else
      var d := s.answers[id];
      if !OwnerOrAdmin(c, d.user) then Outcome(Forbidden, s)
      else
        var d' := d.(description := Or(description, d.description));
        if !AnswerRequired(d') then Outcome(ServerError, s)
        else Outcome(Ok, s.(answers := s.answers[id := d']))
  }

  /** `deleteAnswer`: removes the answer and pulls its id from the question
      it answers; every other question is left as it was. */
  function DeleteAnswer(s: State, c: Caller, id: Id): (r: Outcome)
    ensures r.status == NotFound <==> id !in s.answers
    ensures r.status == Forbidden <==> id in s.answers && !OwnerOrAdmin(c, s.answers[id].user)
    ensures r.status != Ok ==> r.state == s
    ensures r.status == Ok ==>
      && r.state.answers == s.answers - {id}
      && r.state.questions.Keys == s.questions.Keys
      && (forall q :: q in s.questions && q != s.answers[id].question ==> r.state.questions[q] == s.questions[q])
      && (var parent := s.answers[id].question;
          parent in s.questions ==>
            r.state.questions[parent] == s.questions[parent].(answers := Pull(s.questions[parent].answers, id)))
      && r.state.(answers := s.answers, questions := s.questions) == s
  {
    if id !in s.answers then Outcome(NotFound, s)
    else
      var d := s.answers[id];
      if !OwnerOrAdmin(c, d.user) then Outcome(Forbidden, s)
      else
        var questions :=
          if d.question in s.questions
          then s.questions[d.question := s.questions[d.question].(answers := Pull(s.questions[d.question].answers, id))]
          else s.questions;
        Outcome(Ok, s.(questions := questions, answers := s.answers - {id}))
  }

  /** `upvoteAnswer`: a caller already among the votes is refused with 400;
      anyone else, the answer's author included, is appended to them. */
  function UpvoteAnswer(s: State, c: Caller, id: Id): (r: Outcome)
    ensures r.status == NotFound <==> id !in s.answers
    ensures r.status == BadRequest <==> id in s.answers && c.id in s.answers[id].votes
    ensures r.status != Ok ==> r.state == s
    ensures r.status == Ok ==>
      && r.state.(answers := s.answers) == s
      && r.state.answers.Keys == s.answers.Keys
      && (forall a :: a in s.answers && a != id ==> r.state.answers[a] == s.answers[a])
      && r.state.answers[id] == s.answers[id].(votes := s.answers[id].votes + [c.id])
      && |r.state.answers[id].votes| == |s.answers[id].votes| + 1
  {
    if id !in s.answers then Outcome(NotFound, s)
    else
      var d := s.answers[id];
      if c.id in d.votes then Outcome(BadRequest, s)
      else Outcome(Ok, s.(answers := s.answers[id := d.(votes := d.votes + [c.id])]))
  }

  /** `acceptAnswer`: only the owner of the answer's question may accept it,
      an admin included; the question then records the answer as accepted. */
  function AcceptAnswer(s: State, c: Caller, id: Id): (r: Outcome)
    ensures r.status == NotFound <==> id !in s.answers || s.answers[id].question !in s.questions
    ensures r.status == Forbidden <==>
      id in s.answers && s.answers[id].question in s.questions && s.questions[s.answers[id].question].user != c.id
    ensures r.status != Ok ==> r.state == s
    ensures r.status == Ok ==>
      var q := s.answers[id].question;
      && r.state.(questions := s.questions) == s
      && r.state.questions == s.questions[q := s.questions[q].(acceptedAnswer := Some(id))]
      && r.state.questions[q].user == c.id
  {
    if id !in s.answers then Outcome(NotFound, s)
    else
      var q := s.answers[id].question;
      if q !in s.questions then Outcome(NotFound, s)
      else if s.questions[q].user != c.id then Outcome(Forbidden, s)
      else Outcome(Ok, s.(questions := s.questions[q := s.questions[q].(acceptedAnswer := Some(id))]))
  }

  // ----- questions -----

  /** Stores a new question owned by the caller with no answers; omitted tags
      are an empty list. */
  function PostQuestion(s: State, c: Caller, title: Option<string>, description: Option<string>,
                        tags: Option<seq<string>>, images: seq<ImageRef>, now: int): (r: Outcome)
    ensures r.status == Created <==>
      Truthy(title) && Truthy(description) && forall k :: 0 <= k < |tags.GetOr([])| ==> tags.GetOr([])[k] != ""
    ensures r.status != Created ==> r.status == ServerError && r.state == s
    ensures r.status == Created ==>
      && r.state.questions ==
           s.questions[s.nextId := Question(title.value, description.value, tags.GetOr([]), c.id, [], None, images, now)]
      && r.state.nextId == s.nextId + 1
      && r.state.(questions := s.questions, nextId := s.nextId) == s
  {
    var d := Question(title.GetOr(""), description.GetOr(""), tags.GetOr([]), c.id, [], None, images, now);
    if !QuestionRequired(d) then Outcome(ServerError, s)
    else Outcome(Created, s.(questions := s.questions[s.nextId := d], nextId := s.nextId + 1))
  }

  /** `createQuestion`: a question without images. */
  function CreateQuestion(s: State, c: Caller, title: Option<string>, description: Option<string>,
                          tags: Option<seq<string>>, now: int): Outcome
  {
    PostQuestion(s, c, title, description, tags, [], now)
  }

  /** The question after an edit: a truthy title or description replaces the
      old one, and any tag list, even an empty one, replaces the old tags. */
  function Edited(d: Question, title: Option<string>, description: Option<string>,
                  tags: Option<seq<string>>): (e: Question)
    ensures e.user == d.user && e.answers == d.answers && e.acceptedAnswer == d.acceptedAnswer
    ensures e.images == d.images && e.createdAt == d.createdAt
    ensures e.title == Or(title, d.title) && e.description == Or(description, d.description)
    ensures e.tags == if tags.Some? then tags.value else d.tags
  {
    d.(title := Or(title, d.title), description := Or(description, d.description),
       tags := if tags.Some? then tags.value else d.tags)
  }

  /** Applies an edit (`Edited`, then the images) to question `id` on behalf
      of its owner or an admin; a tag list with an empty tag fails the schema. */
  function EditQuestion(s: State, c: Caller, id: Id, title: Option<string>, description: Option<string>,
                        tags: Option<seq<string>>, images: Option<seq<ImageRef>>): (r: Outcome)
    ensures r.status == NotFound <==> id !in s.questions
    ensures r.status == Forbidden <==> id in s.questions && !OwnerOrAdmin(c, s.questions[id].user)
    ensures r.status != Ok ==> r.state == s
    ensures r.status == Ok ==>
      && r.state.(questions := s.questions) == s
      && r.state.questions.Keys == s.questions.Keys
      && (forall q :: q in s.questions && q != id ==> r.state.questions[q] == s.questions[q])
      && var e := Edited(s.questions[id], title, description, tags);
         r.state.questions[id] == (if images.Some? then e.(images := images.value) else e)
  {
    if id !in s.questions then Outcome(NotFound, s)
    else
      var d := s.questions[id];
      if !OwnerOrAdmin(c, d.user) then Outcome(Forbidden, s)
      else
        var e := Edited(d, title, description, tags);
        var e' := if images.Some? then e.(images := images.value) else e;
        if !QuestionRequired(e') then Outcome(ServerError, s)
        else Outcome(Ok, s.(questions := s.questions[id := e']))
  }

  /** `updateQuestion`. */
  function UpdateQuestion(s: State, c: Caller, id: Id, title: Option<string>, description: Option<string>,
                          tags: Option<seq<string>>): Outcome
  {
    EditQuestion(s, c, id, title, description, tags, None)
  }

  /** `deleteQuestion`: removes the question and every answer to it; answers
      to other questions stay. */
  function DeleteQuestion(s: State, c: Caller, id: Id): (r: Outcome)
    ensures r.status == NotFound <==> id !in s.questions
    ensures r.status == Forbidden <==> id in s.questions && !OwnerOrAdmin(c, s.questions[id].user)
    ensures r.status != Ok ==> r.state == s
    ensures r.status == Ok ==>
      && r.state.questions == s.questions - {id}
      && (forall a :: a in r.state.answers <==> a in s.answers && s.answers[a].question != id)
      && (forall a :: a in r.state.answers ==> r.state.answers[a] == s.answers[a])
      && r.state.(questions := s.questions, answers := s.answers) == s
  {
    if id !in s.questions then Outcome(NotFound, s)
    else if !OwnerOrAdmin(c, s.questions[id].user) then Outcome(Forbidden, s)
    else
      var kept := map a | a in s.answers && s.answers[a].question != id :: s.answers[a];
      Outcome(Ok, s.(answers := kept, questions := s.questions - {id}))
  }

  // ----- administration -----

  /** `deleteUser` (admin only): the user is gone afterwards, whether or not
      it existed, and nothing the user wrote is touched. */
  function DeleteUser(s: State, c: Caller, user: Id): (r: Outcome)
    ensures r.status == Forbidden <==> c.role != Admin
    ensures r.status != Forbidden ==> r.status == Ok
    ensures c.role != Admin ==> r.state == s
    ensures c.role == Admin ==> r.state.users == s.users - {user} && r.state.(users := s.users) == s
  {
    if c.role != Admin then Outcome(Forbidden, s)
    else Outcome(Ok, s.(users := s.users - {user}))
  }

  /** `banUser` (admin only): the user's role becomes `banned`. */
  function BanUser(s: State, c: Caller, user: Id): (r: Outcome)
    ensures r.status == Forbidden <==> c.role != Admin
    ensures r.status == NotFound <==> c.role == Admin && user !in s.users
    ensures r.status != Ok ==> r.state == s
    ensures r.status == Ok ==> r.state.users == s.users[user := Banned] && r.state.(users := s.users) == s
  {
    if c.role != Admin then Outcome(Forbidden, s)
    else if user !in s.users then Outcome(NotFound, s)
    else Outcome(Ok, s.(users := s.users[user := Banned]))
  }

  /** `unbanUser` (admin only): the user's role becomes `user`, whatever it
      was before. */
  function UnbanUser(s: State, c: Caller, user: Id): (r: Outcome)
    ensures r.status == Forbidden <==> c.role != Admin
    ensures r.status == NotFound <==> c.role == Admin && user !in s.users
    ensures r.status != Ok ==> r.state == s
    ensures r.status == Ok ==> r.state.users == s.users[user := User] && r.state.(users := s.users) == s
  {
    if c.role != Admin then Outcome(Forbidden, s)
    else if user !in s.users then Outcome(NotFound, s)
    else Outcome(Ok, s.(users := s.users[user := User]))
  }

  /** The admin's `deleteQuestion`: removes the question document alone; its
      answers stay in the store. */
  function AdminDeleteQuestion(s: State, c: Caller, id: Id): (r: Outcome)
    ensures r.status == Forbidden <==> c.role != Admin
    ensures r.status != Forbidden ==> r.status == Ok
    ensures c.role != Admin ==> r.state == s
    ensures c.role == Admin ==>
      r.state.questions == s.questions - {id} && r.state.answers == s.answers &&
      r.state.(questions := s.questions) == s
  {
    if c.role != Admin then Outcome(Forbidden, s)
    else Outcome(Ok, s.(questions := s.questions - {id}))
  }

  /** The admin's `deleteAnswer`: removes the answer document alone; its id
      stays in its question's list of answers. */
  function AdminDeleteAnswer(s: State, c: Caller, id: Id): (r: Outcome)
    ensures r.status == Forbidden <==> c.role != Admin
    ensures r.status != Forbidden ==> r.status == Ok
    ensures c.role != Admin ==> r.state == s
    ensures c.role == Admin ==>
      r.state.answers == s.answers - {id} && r.state.questions == s.questions &&
      r.state.(answers := s.answers) == s
  {
    if c.role != Admin then Outcome(Forbidden, s)
    else Outcome(Ok, s.(answers := s.answers - {id}))
  }

  // ----- notifications and tags -----

  /** `markAsRead`: only the notification's own user may mark it, an admin
      included; it is then read and nothing else changes. */
  function MarkAsRead(s: State, c: Caller, id: Id): (r: Outcome)
    ensures r.status == NotFound <==> id !in s.notifications
    ensures r.status == Forbidden <==> id in s.notifications && s.notifications[id].user != c.id
    ensures r.status != Ok ==> r.state == s
    ensures r.status == Ok ==>
      && r.state.notifications == s.notifications[id := s.notifications[id].(isRead := true)]
      && r.state.(notifications := s.notifications) == s
  {
    if id !in s.notifications then Outcome(NotFound, s)
    else if s.notifications[id].user != c.id then Outcome(Forbidden, s)
    else Outcome(Ok, s.(notifications := s.notifications[id := s.notifications[id].(isRead := true)]))
  }

  /** `createTag` (admin only): a new, non-empty name is added at the end; a
      missing or duplicate name fails the schema's `required` and `unique`
      checks. */
  function CreateTag(s: State, c: Caller, name: Option<string>): (r: Outcome)
    ensures r.status == Forbidden <==> c.role != Admin
    ensures r.status == ServerError <==> c.role == Admin && (!Truthy(name) || name.value in s.tags)
    ensures r.status != Created ==> r.state == s
    ensures r.status == Created ==> r.state.tags == s.tags + [name.value] && r.state.(tags := s.tags) == s
    ensures r.status in {Forbidden, ServerError, Created}
  {
    if c.role != Admin then Outcome(Forbidden, s)
    else if !Truthy(name) || name.value in s.tags then Outcome(ServerError, s)
    else Outcome(Created, s.(tags := s.tags + [name.value]))
  }

  // ----- handlers with images -----

  /** Adds a notification for `user`, unread, at the next id. */
  function Notify(s: State, user: Id, kind: string, message: string, question: Id, now: int): (t: State)
    ensures t.notifications == s.notifications[s.nextId := Notification(user, kind, message, QuestionPage(question), false, now)]
    ensures t.nextId == s.nextId + 1
    ensures t.(notifications := s.notifications, nextId := s.nextId) == s
  {
    s.(notifications := s.notifications[s.nextId := Notification(user, kind, message, QuestionPage(question), false, now)],
       nextId := s.nextId + 1)
  }

  /** `createQuestionWithImages`: the question carries the images found in
      its description, and its author is told it was posted. */
  function CreateQuestionWithImages(s: State, c: Caller, title: Option<string>, description: Option<string>,
                                    tags: Option<seq<string>>, upload: string -> Option<Uploaded>, now: int): (r: Outcome)
    ensures r.status == PostQuestion(s, c, title, description, tags, [], now).status
    ensures r.status != Created ==> r.state == s
    ensures r.status == Created ==>
      && r.state.questions ==
           s.questions[s.nextId := Question(title.value, description.value, tags.GetOr([]), c.id, [], None,
                                            ExtractImages(ContentText(description), upload), now)]
      && r.state.answers == s.answers && r.state.users == s.users && r.state.tags == s.tags
      && r.state.notifications ==
           s.notifications[s.nextId + 1 := Notification(c.id, QuestionPostedKind, QuestionPostedMessage, QuestionPage(s.nextId), false, now)]
      && r.state.nextId == s.nextId + 2
  {
    var images := ExtractImages(ContentText(description), upload);
    var posted := PostQuestion(s, c, title, description, tags, images, now);
    if posted.status != Created then posted
    else Outcome(Created, Notify(posted.state, c.id, QuestionPostedKind, QuestionPostedMessage, s.nextId, now))
  }

  /** `createAnswerWithImages`: the answer carries the images found in its
      description, and the question's owner is notified unless the owner is
      the one answering or the question does not exist. */
  function CreateAnswerWithImages(s: State, c: Caller, question: Id, description: Option<string>,
                                  upload: string -> Option<Uploaded>, now: int): (r: Outcome)
    ensures r.status == Created <==> Truthy(description)
    ensures r.status != Created ==> r.state == s
    ensures r.status == Created ==>
      && r.state.answers ==
           s.answers[s.nextId := Answer(description.value, c.id, question, [], ExtractImages(ContentText(description), upload), now)]
      && r.state.questions.Keys == s.questions.Keys
      && (question in s.questions ==>
            r.state.questions[question] == s.questions[question].(answers := s.questions[question].answers + [s.nextId]))
      && (forall q :: q in s.questions && q != question ==> r.state.questions[q] == s.questions[q])
      && r.state.users == s.users && r.state.tags == s.tags
      && (if question in s.questions && s.questions[question].user != c.id
          then r.state.notifications ==
                 s.notifications[s.nextId + 1 := Notification(s.questions[question].user, AnswerKind, AnswerMessage, QuestionPage(question), false, now)]
               && r.state.nextId == s.nextId + 2
          else r.state.notifications == s.notifications && r.state.nextId == s.nextId + 1)
  {
    var images := ExtractImages(ContentText(description), upload);
    var posted := PostAnswer(s, c, question, description, images, now);
    if posted.status != Created then posted
    else
      var t := posted.state;
      if question in t.questions && t.questions[question].user != c.id
      then Outcome(Created, Notify(t, t.questions[question].user, AnswerKind, AnswerMessage, question, now))
      else posted
  }

  /** `updateQuestionWithImages`: an edit as in `updateQuestion` whose images
      are replaced by those found in the new description. */
  function UpdateQuestionWithImages(s: State, c: Caller, id: Id, title: Option<string>, description: Option<string>,
                                    tags: Option<seq<string>>, upload: string -> Option<Uploaded>): Outcome
  {
    EditQuestion(s, c, id, title, description, tags, Some(ExtractImages(ContentText(description), upload)))
  }

  /** `updateAnswerWithImages`: a truthy description replaces the old one and
      the images are replaced by those found in the request's description. */
  function UpdateAnswerWithImages(s: State, c: Caller, id: Id, description: Option<string>,
                                  upload: string -> Option<Uploaded>): (r: Outcome)
    ensures r.status == NotFound <==> id !in s.answers
    ensures r.status == Forbidden <==> id in s.answers && !OwnerOrAdmin(c, s.answers[id].user)
    ensures r.status != Ok ==> r.state == s
    ensures r.status == Ok ==>
      && r.state.(answers := s.answers) == s
      && r.state.answers == s.answers[id := s.answers[id].(description := Or(description, s.answers[id].description),
                                                          images := ExtractImages(ContentText(description), upload))]
  {
    if id !in s.answers then Outcome(NotFound, s)
    else
      var d := s.answers[id];
      if !OwnerOrAdmin(c, d.user) then Outcome(Forbidden, s)
      else
        var d' := d.(description := Or(description, d.description),
                     images := ExtractImages(ContentText(description), upload));
        if !AnswerRequired(d') then Outcome(ServerError, s)
        else Outcome(Ok, s.(answers := s.answers[id := d']))
  }
}
