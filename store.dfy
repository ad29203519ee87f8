/** The forum's store: one object whose collections the request handlers
    read and change in place. Each method takes the caller as the
    authentication layer resolved it, performs the handler's steps (look the
    document up, check the caller, change fields, save) and answers with a
    status; its contract is that the store ends in the state `ForumState`
    describes for that handler and stays consistent. */
module Forum {
  import opened Wrappers
  import opened Records
  import ImageScan
  import Queries
  import FS = ForumState
  import Laws = ForumLaws

  /** The caller's notifications as `getNotifications` lists them from a
      store's notification map: stored documents, each once, the caller's
      own, newest first, as many as they have up to twenty. */
  lemma StoredNotifications(m: map<Id, Notification>, n: nat, c: Caller)
    ensures var list := Queries.GetNotifications(Listing(m, n), c);
      && (forall i, j :: 0 <= i < j < |list| ==> list[i].id != list[j].id)
      && (forall k :: 0 <= k < |list| ==> list[k].id in m && m[list[k].id] == list[k].doc && list[k].doc.user == c.id)
      && (forall i, j :: 0 <= i < j < |list| ==> list[i].doc.createdAt >= list[j].doc.createdAt)
  {
    var docs := Listing(m, n);
    var list := Queries.GetNotifications(docs, c);
    Queries.GetNotificationsSpec(docs, c);
    forall k | 0 <= k < |list|
      ensures list[k].id in m && m[list[k].id] == list[k].doc
    {
      ListedIsStored(m, n, list[k]);
    }
    ListingHasNoDuplicates(m, n);
    Queries.GetNotificationsAll(docs, c);
    StoredIdsDistinct(list, m);
  }

  class Store {
    var questions: map<Id, Question>
    var answers: map<Id, Answer>
    var users: map<Id, Role>
    var notifications: map<Id, Notification>
    var tags: seq<string>
    var nextId: nat

    /** The store's collections as one value. */
    function Snapshot(): FS.State
      reads this
    {
      FS.State(questions, answers, users, notifications, tags, nextId)
    }

    ghost predicate Valid()
      reads this
    {
      FS.Consistent(Snapshot())
    }

    /** An empty store with the given registered users. */
    constructor (registered: map<Id, Role>)
      ensures Valid()
      ensures Snapshot() == FS.State(map[], map[], registered, map[], [], 0)
    {
      questions := map[];
      answers := map[];
      users := registered;
      notifications := map[];
      tags := [];
      nextId := 0;
    }

    // ----- answers -----

    /** Saves a new answer, then pushes its id onto the question's answers. */
    method PostAnswer(c: Caller, question: Id, description: Option<string>, images: seq<ImageRef>, now: int)
      returns (status: Status)
      requires Valid()
      modifies this
      ensures Valid()
      ensures FS.Outcome(status, Snapshot()) == FS.PostAnswer(old(Snapshot()), c, question, description, images, now)
    {
      ghost var before := Snapshot();
      assert FS.Consistent(before);
      ghost var expected := FS.PostAnswer(before, c, question, description, images, now);
      if !FS.Truthy(description) {
        return ServerError;
      }
      var id := nextId;
      nextId := nextId + 1;
      answers := answers[id := Answer(description.value, c.id, question, [], images, now)];
      if question in questions {
        var q := questions[question];
        questions := questions[question := q.(answers := q.answers + [id])];
      }
      assert Snapshot() == expected.state;
      Laws.CreateAnswerKeepsConsistent(before, c, question, description, images, now);
      status := Created;
    }

    method CreateAnswer(c: Caller, question: Id, description: Option<string>, now: int) returns (status: Status)
      requires Valid()
      modifies this
      ensures Valid()
      ensures FS.Outcome(status, Snapshot()) == FS.CreateAnswer(old(Snapshot()), c, question, description, now)
    {
      status := PostAnswer(c, question, description, [], now);
    }

    method UpdateAnswer(c: Caller, id: Id, description: Option<string>) returns (status: Status)
      requires Valid()
      modifies this
      ensures Valid()
      ensures FS.Outcome(status, Snapshot()) == FS.UpdateAnswer(old(Snapshot()), c, id, description)
    {
      Laws.UpdateAnswerKeepsConsistent(Snapshot(), c, id, description);
      if id !in answers {
        return NotFound;
      }
      var answer := answers[id];
      if answer.user != c.id && c.role != Admin {
        return Forbidden;
      }
      answer := answer.(description := FS.Or(description, answer.description));
      if !FS.AnswerRequired(answer) {
        return ServerError;
      }
      answers := answers[id := answer];
      status := Ok;
    }

    method DeleteAnswer(c: Caller, id: Id) returns (status: Status)
      requires Valid()
      modifies this
      ensures Valid()
      ensures FS.Outcome(status, Snapshot()) == FS.DeleteAnswer(old(Snapshot()), c, id)
    {
      ghost var before := Snapshot();
      assert FS.Consistent(before);
      ghost var expected := FS.DeleteAnswer(before, c, id);
      if id !in answers {
        return NotFound;
      }
      var answer := answers[id];
      if answer.user != c.id && c.role != Admin {
        return Forbidden;
      }
      if answer.question in questions {
        var q := questions[answer.question];
        questions := questions[answer.question := q.(answers := FS.Pull(q.answers, id))];
      }
      answers := answers - {id};
      assert Snapshot() == expected.state;
      Laws.DeleteAnswerKeepsConsistent(before, c, id);
      status := Ok;
    }

    method UpvoteAnswer(c: Caller, id: Id) returns (status: Status)
      requires Valid()
      modifies this
      ensures Valid()
      ensures FS.Outcome(status, Snapshot()) == FS.UpvoteAnswer(old(Snapshot()), c, id)
    {
      Laws.UpvoteAnswerKeepsConsistent(Snapshot(), c, id);
      if id !in answers {
        return NotFound;
      }
      var answer := answers[id];
      if c.id in answer.votes {
        return BadRequest;
      }
      answer := answer.(votes := answer.votes + [c.id]);
      answers := answers[id := answer];
      status := Ok;
    }

    method AcceptAnswer(c: Caller, id: Id) returns (status: Status)
      requires Valid()
      modifies this
      ensures Valid()
      ensures FS.Outcome(status, Snapshot()) == FS.AcceptAnswer(old(Snapshot()), c, id)
    {
      Laws.AcceptAnswerKeepsConsistent(Snapshot(), c, id);
      if id !in answers {
        return NotFound;
      }
      var answer := answers[id];
      if answer.question !in questions {
        return NotFound;
      }
      var question := questions[answer.question];
      if question.user != c.id {
        return Forbidden;
      }
      question := question.(acceptedAnswer := Some(id));
      questions := questions[answer.question := question];
      status := Ok;
    }

    // ----- questions -----

    /** Builds the question document and saves it at a fresh id. */
    method PostQuestion(c: Caller, title: Option<string>, description: Option<string>,
                        tagList: Option<seq<string>>, images: seq<ImageRef>, now: int)
      returns (status: Status)
      requires Valid()
      modifies this
      ensures Valid()
      ensures FS.Outcome(status, Snapshot()) == FS.PostQuestion(old(Snapshot()), c, title, description, tagList, images, now)
    {
      Laws.CreateQuestionKeepsConsistent(Snapshot(), c, title, description, tagList, images, now);
      var question := Question(title.GetOr(""), description.GetOr(""), tagList.GetOr([]), c.id, [], None, images, now);
      if !FS.QuestionRequired(question) {
        return ServerError;
      }
      questions := questions[nextId := question];
      nextId := nextId + 1;
      status := Created;
    }

    method CreateQuestion(c: Caller, title: Option<string>, description: Option<string>,
                          tagList: Option<seq<string>>, now: int)
      returns (status: Status)
      requires Valid()
      modifies this
      ensures Valid()
      ensures FS.Outcome(status, Snapshot()) == FS.CreateQuestion(old(Snapshot()), c, title, description, tagList, now)
    {
      status := PostQuestion(c, title, description, tagList, [], now);
    }

    /** Loads the question, checks the caller, assigns the supplied fields
      and saves; `images`, when given, replaces the stored images. */
    method EditQuestion(c: Caller, id: Id, title: Option<string>, description: Option<string>,
                        tagList: Option<seq<string>>, images: Option<seq<ImageRef>>)
      returns (status: Status)
      requires Valid()
      modifies this
      ensures Valid()
      ensures FS.Outcome(status, Snapshot()) == FS.EditQuestion(old(Snapshot()), c, id, title, description, tagList, images)
    {
      ghost var before := Snapshot();
      ghost var expected := FS.EditQuestion(before, c, id, title, description, tagList, images);
      if id !in questions {
        return NotFound;
      }
      var question := questions[id];
      if question.user != c.id && c.role != Admin {
        return Forbidden;
      }
      question := question.(title := FS.Or(title, question.title));
      question := question.(description := FS.Or(description, question.description));
      if tagList.Some? {
        question := question.(tags := tagList.value);
      }
      if images.Some? {
        question := question.(images := images.value);
      }
      ghost var edited := FS.Edited(before.questions[id], title, description, tagList);
      assert question == if images.Some? then edited.(images := images.value) else edited;
      if !FS.QuestionRequired(question) {
        return ServerError;
      }
      questions := questions[id := question];
      assert Snapshot() == expected.state;
      Laws.EditQuestionKeepsConsistent(before, c, id, title, description, tagList, images);
      status := Ok;
    }

    method UpdateQuestion(c: Caller, id: Id, title: Option<string>, description: Option<string>,
                          tagList: Option<seq<string>>)
      returns (status: Status)
      requires Valid()
      modifies this
      ensures Valid()
      ensures FS.Outcome(status, Snapshot()) == FS.UpdateQuestion(old(Snapshot()), c, id, title, description, tagList)
    {
      status := EditQuestion(c, id, title, description, tagList, None);
    }

    method DeleteQuestion(c: Caller, id: Id) returns (status: Status)
      requires Valid()
      modifies this
      ensures Valid()
      ensures FS.Outcome(status, Snapshot()) == FS.DeleteQuestion(old(Snapshot()), c, id)
    {
      Laws.DeleteQuestionKeepsConsistent(Snapshot(), c, id);
      if id !in questions {
        return NotFound;
      }
      if questions[id].user != c.id && c.role != Admin {
        return Forbidden;
      }
      answers := map a | a in answers && answers[a].question != id :: answers[a];
      questions := questions - {id};
      status := Ok;
    }

    /** `getQuestions` over the stored questions in insertion order: every
        question on the page is a stored one that matches the filter, in the
        requested order, and `total` counts all matches. */
    method GetQuestions(query: Queries.QuestionQuery) returns (page: Queries.QuestionPage)
      ensures page == Queries.GetQuestions(Listing(questions, nextId), query)
      ensures page.Page? ==>
        && (forall k :: 0 <= k < |page.questions| ==>
              && page.questions[k].id in questions
              && questions[page.questions[k].id] == page.questions[k].doc
              && Queries.Matches(query, page.questions[k]))
        && (forall i, j :: 0 <= i < j < |page.questions| ==>
              if Queries.NewestFirst(query) then page.questions[i].doc.createdAt >= page.questions[j].doc.createdAt
              else page.questions[i].doc.createdAt <= page.questions[j].doc.createdAt)
        && page.total == CountWhere(Listing(questions, nextId), (d: Keyed<Question>) => Queries.Matches(query, d))
    {
      var docs := Listing(questions, nextId);
      page := Queries.GetQuestions(docs, query);
      if page.Page? {
        Queries.GetQuestionsMatch(docs, query);
        Queries.GetQuestionsOrder(docs, query);
        Queries.GetQuestionsWindow(docs, query);
      }
    }

    // ----- administration -----

    method DeleteUser(c: Caller, user: Id) returns (status: Status)
      requires Valid()
      modifies this
      ensures Valid()
      ensures FS.Outcome(status, Snapshot()) == FS.DeleteUser(old(Snapshot()), c, user)
    {
      Laws.UserRolesKeepConsistent(Snapshot(), c, user);
      if c.role != Admin {
        return Forbidden;
      }
      users := users - {user};
      status := Ok;
    }

    method BanUser(c: Caller, user: Id) returns (status: Status)
      requires Valid()
      modifies this
      ensures Valid()
      ensures FS.Outcome(status, Snapshot()) == FS.BanUser(old(Snapshot()), c, user)
    {
      Laws.UserRolesKeepConsistent(Snapshot(), c, user);
      if c.role != Admin {
        return Forbidden;
      }
      if user !in users {
        return NotFound;
      }
      users := users[user := Banned];
      status := Ok;
    }

    method UnbanUser(c: Caller, user: Id) returns (status: Status)
      requires Valid()
      modifies this
      ensures Valid()
      ensures FS.Outcome(status, Snapshot()) == FS.UnbanUser(old(Snapshot()), c, user)
    {
      Laws.UserRolesKeepConsistent(Snapshot(), c, user);
      if c.role != Admin {
        return Forbidden;
      }
      if user !in users {
        return NotFound;
      }
      users := users[user := User];
      status := Ok;
    }

    method AdminDeleteQuestion(c: Caller, id: Id) returns (status: Status)
      requires Valid()
      modifies this
      ensures Valid()
      ensures FS.Outcome(status, Snapshot()) == FS.AdminDeleteQuestion(old(Snapshot()), c, id)
    {
      Laws.AdminDeletesKeepConsistent(Snapshot(), c, id);
      if c.role != Admin {
        return Forbidden;
      }
      questions := questions - {id};
      status := Ok;
    }

    method AdminDeleteAnswer(c: Caller, id: Id) returns (status: Status)
      requires Valid()
      modifies this
      ensures Valid()
      ensures FS.Outcome(status, Snapshot()) == FS.AdminDeleteAnswer(old(Snapshot()), c, id)
    {
      Laws.AdminDeletesKeepConsistent(Snapshot(), c, id);
      if c.role != Admin {
        return Forbidden;
      }
      answers := answers - {id};
      status := Ok;
    }

    // ----- notifications and tags -----

    /** `getNotifications` over the stored notifications in insertion order:
        as many of the caller's notifications as they have, up to twenty,
        each once, all stored and the caller's own, newest first. */
    method GetNotifications(c: Caller) returns (list: seq<Keyed<Notification>>)
      ensures list == Queries.GetNotifications(Listing(notifications, nextId), c)
      ensures var mine := CountWhere(Listing(notifications, nextId), (d: Keyed<Notification>) => d.doc.user == c.id);
        |list| == if mine <= Queries.NotificationLimit then mine else Queries.NotificationLimit
      ensures |list| <= Queries.NotificationLimit
      ensures forall i, j :: 0 <= i < j < |list| ==> list[i].id != list[j].id
      ensures forall k :: 0 <= k < |list| ==>
        list[k].id in notifications && notifications[list[k].id] == list[k].doc && list[k].doc.user == c.id
      ensures forall i, j :: 0 <= i < j < |list| ==> list[i].doc.createdAt >= list[j].doc.createdAt
    {
      list := Queries.GetNotifications(Listing(notifications, nextId), c);
      StoredNotifications(notifications, nextId, c);
    }

    method MarkAsRead(c: Caller, id: Id) returns (status: Status)
      requires Valid()
      modifies this
      ensures Valid()
      ensures FS.Outcome(status, Snapshot()) == FS.MarkAsRead(old(Snapshot()), c, id)
    {
      Laws.MarkAsReadKeepsConsistent(Snapshot(), c, id);
      if id !in notifications {
        return NotFound;
      }
      var notification := notifications[id];
      if notification.user != c.id {
        return Forbidden;
      }
      notification := notification.(isRead := true);
      notifications := notifications[id := notification];
      status := Ok;
    }

    /** `getTags`: every stored tag name, in the order they were created,
        each once and none empty. */
    method GetTags() returns (names: seq<string>)
      requires Valid()
      ensures names == tags
      ensures NoDuplicates(names) && forall k :: 0 <= k < |names| ==> names[k] != ""
    {
      names := tags;
    }

    method CreateTag(c: Caller, name: Option<string>) returns (status: Status)
      requires Valid()
      modifies this
      ensures Valid()
      ensures FS.Outcome(status, Snapshot()) == FS.CreateTag(old(Snapshot()), c, name)
    {
      Laws.CreateTagKeepsConsistent(Snapshot(), c, name);
      if c.role != Admin {
        return Forbidden;
      }
      if !FS.Truthy(name) || name.value in tags {
        return ServerError;
      }
      tags := tags + [name.value];
      status := Created;
    }

    // ----- handlers with images -----

    /** Stores a notification for `user` at a fresh id. */
    method Notify(user: Id, kind: string, message: string, question: Id, now: int)
      requires Valid()
      modifies this
      ensures Valid()
      ensures Snapshot() == FS.Notify(old(Snapshot()), user, kind, message, question, now)
    {
      Laws.NotifyKeepsConsistent(Snapshot(), user, kind, message, question, now);
      notifications := notifications[nextId := Notification(user, kind, message, QuestionPage(question), false, now)];
      nextId := nextId + 1;
    }

    method CreateQuestionWithImages(c: Caller, title: Option<string>, description: Option<string>,
                                    tagList: Option<seq<string>>, upload: string -> Option<ImageScan.Uploaded>, now: int)
      returns (status: Status)
      requires Valid()
      modifies this
      ensures Valid()
      ensures FS.Outcome(status, Snapshot()) ==
        FS.CreateQuestionWithImages(old(Snapshot()), c, title, description, tagList, upload, now)
    {
      var images := ImageScan.ProcessImagesFromContent(description, upload);
      var id := nextId;
      status := PostQuestion(c, title, description, tagList, images, now);
      if status == Created {
        Notify(c.id, FS.QuestionPostedKind, FS.QuestionPostedMessage, id, now);
      }
    }

    method CreateAnswerWithImages(c: Caller, question: Id, description: Option<string>,
                                  upload: string -> Option<ImageScan.Uploaded>, now: int)
      returns (status: Status)
      requires Valid()
      modifies this
      ensures Valid()
      ensures FS.Outcome(status, Snapshot()) ==
        FS.CreateAnswerWithImages(old(Snapshot()), c, question, description, upload, now)
    {
      var images := ImageScan.ProcessImagesFromContent(description, upload);
      status := PostAnswer(c, question, description, images, now);
      if status == Created && question in questions && questions[question].user != c.id {
        Notify(questions[question].user, FS.AnswerKind, FS.AnswerMessage, question, now);
      }
    }

    method UpdateQuestionWithImages(c: Caller, id: Id, title: Option<string>, description: Option<string>,
                                    tagList: Option<seq<string>>, upload: string -> Option<ImageScan.Uploaded>)
      returns (status: Status)
      requires Valid()
      modifies this
      ensures Valid()
      ensures FS.Outcome(status, Snapshot()) ==
        FS.UpdateQuestionWithImages(old(Snapshot()), c, id, title, description, tagList, upload)
    {
      if id !in questions {
        return NotFound;
      }
      if questions[id].user != c.id && c.role != Admin {
        return Forbidden;
      }
      var images := ImageScan.ProcessImagesFromContent(description, upload);
      status := EditQuestion(c, id, title, description, tagList, Some(images));
    }

    method UpdateAnswerWithImages(c: Caller, id: Id, description: Option<string>,
                                  upload: string -> Option<ImageScan.Uploaded>)
      returns (status: Status)
      requires Valid()
      modifies this
      ensures Valid()
      ensures FS.Outcome(status, Snapshot()) == FS.UpdateAnswerWithImages(old(Snapshot()), c, id, description, upload)
    {
      Laws.UpdateAnswerWithImagesKeepsConsistent(Snapshot(), c, id, description, upload);
      if id !in answers {
        return NotFound;
      }
      var answer := answers[id];
      if answer.user != c.id && c.role != Admin {
        return Forbidden;
      }
      var images := ImageScan.ProcessImagesFromContent(description, upload);
      answer := answer.(description := FS.Or(description, answer.description), images := images);
      if !FS.AnswerRequired(answer) {
        return ServerError;
      }
      answers := answers[id := answer];
      status := Ok;
    }
  }
}
