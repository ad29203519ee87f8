/** What the handlers of `ForumState` keep true and how they compose: every
    handler preserves the store's invariant (so votes never hold a user
    twice, an accepted answer always answers its question and tag names stay
    unique), marking read and deleting a user are idempotent, and an edit
    that omits the description keeps the text but drops every image. */
module ForumLaws {
  import opened Wrappers
  import opened Records
  import opened ImageScan
  import opened ForumState

  /** The invariant survives any change that issues no id, leaves the tags
      alone, drops but never adds documents, and keeps what every remaining
      question links to and which question every remaining answer answers. */
  lemma ConsistentFrame(s: State, t: State)
    requires Consistent(s)
    requires t.nextId == s.nextId && t.tags == s.tags
    requires forall n :: n in t.notifications ==> n in s.notifications
    requires forall q :: q in t.questions ==>
      && q in s.questions && QuestionRequired(t.questions[q])
      && t.questions[q].answers == s.questions[q].answers
      && t.questions[q].acceptedAnswer == s.questions[q].acceptedAnswer
    requires forall a :: a in t.answers ==>
      && a in s.answers && AnswerRequired(t.answers[a]) && NoDuplicates(t.answers[a].votes)
      && t.answers[a].question == s.answers[a].question
    ensures Consistent(t)
  {
    forall q | q in t.questions
      ensures QuestionLinked(t, q)
    {
      assert QuestionLinked(s, q);
    }
  }

  /** An upvote keeps the voters distinct, and so the invariant. */
  lemma {:induction false} UpvoteAnswerKeepsConsistent(s: State, c: Caller, id: Id)
    requires Consistent(s)
    ensures Consistent(UpvoteAnswer(s, c, id).state)
  {
    var r := UpvoteAnswer(s, c, id);
    if r.status == Ok {
      var v := s.answers[id].votes;
      assert c.id !in v;
      var v' := v + [c.id];
      forall i, j | 0 <= i < j < |v'|
        ensures v'[i] != v'[j]
      {
        if j == |v| { assert v'[i] == v[i]; }
      }
      assert NoDuplicates(r.state.answers[id].votes);
      forall q | q in r.state.questions
        ensures QuestionLinked(r.state, q)
      {
        assert QuestionLinked(s, q);
      }
    }
  }

  /** Accepting keeps the invariant: the accepted answer answers the
      question that records it. */
  lemma AcceptAnswerKeepsConsistent(s: State, c: Caller, id: Id)
    requires Consistent(s)
    ensures Consistent(AcceptAnswer(s, c, id).state)
    ensures AcceptAnswer(s, c, id).status == Ok ==>
      var q := s.answers[id].question;
      && AcceptAnswer(s, c, id).state.questions[q].acceptedAnswer == Some(id)
      && AcceptAnswer(s, c, id).state.answers[id].question == q
  {
    var r := AcceptAnswer(s, c, id);
    if r.status == Ok {
      var q := s.answers[id].question;
      forall p | p in r.state.questions
        ensures QuestionLinked(r.state, p)
      {
        assert QuestionLinked(s, p);
      }
    }
  }

  lemma CreateAnswerKeepsConsistent(s: State, c: Caller, question: Id, description: Option<string>,
                                    images: seq<ImageRef>, now: int)
    requires Consistent(s)
    ensures Consistent(PostAnswer(s, c, question, description, images, now).state)
  {
    var r := PostAnswer(s, c, question, description, images, now);
    if r.status == Created {
      forall q | q in r.state.questions
        ensures QuestionLinked(r.state, q)
      {
        assert QuestionLinked(s, q);
      }
    }
  }

  lemma UpdateAnswerKeepsConsistent(s: State, c: Caller, id: Id, description: Option<string>)
    requires Consistent(s)
    ensures Consistent(UpdateAnswer(s, c, id, description).state)
  {
    var r := UpdateAnswer(s, c, id, description);
    if r.status == Ok {
      forall q | q in r.state.questions
        ensures QuestionLinked(r.state, q)
      {
        assert QuestionLinked(s, q);
      }
    }
  }

  lemma DeleteAnswerKeepsConsistent(s: State, c: Caller, id: Id)
    requires Consistent(s)
    ensures Consistent(DeleteAnswer(s, c, id).state)
  {
    var r := DeleteAnswer(s, c, id);
    if r.status == Ok {
      forall q | q in r.state.questions
        ensures QuestionLinked(r.state, q)
      {
        assert QuestionLinked(s, q);
      }
    }
  }

  lemma CreateQuestionKeepsConsistent(s: State, c: Caller, title: Option<string>, description: Option<string>,
                                      tags: Option<seq<string>>, images: seq<ImageRef>, now: int)
    requires Consistent(s)
    ensures Consistent(PostQuestion(s, c, title, description, tags, images, now).state)
  {
    var r := PostQuestion(s, c, title, description, tags, images, now);
    if r.status == Created {
      forall q | q in r.state.questions
        ensures QuestionLinked(r.state, q)
      {
        if q != s.nextId { assert QuestionLinked(s, q); }
      }
    }
  }

  lemma EditQuestionKeepsConsistent(s: State, c: Caller, id: Id, title: Option<string>, description: Option<string>,
                                    tags: Option<seq<string>>, images: Option<seq<ImageRef>>)
    requires Consistent(s)
    ensures Consistent(EditQuestion(s, c, id, title, description, tags, images).state)
  {
    var r := EditQuestion(s, c, id, title, description, tags, images);
    if r.status == Ok {
      ConsistentFrame(s, r.state);
    }
  }

  lemma DeleteQuestionKeepsConsistent(s: State, c: Caller, id: Id)
    requires Consistent(s)
    ensures Consistent(DeleteQuestion(s, c, id).state)
  {
    var r := DeleteQuestion(s, c, id);
    if r.status == Ok {
      forall q | q in r.state.questions
        ensures QuestionLinked(r.state, q)
      {
        assert QuestionLinked(s, q);
      }
    }
  }

  lemma AdminDeletesKeepConsistent(s: State, c: Caller, id: Id)
    requires Consistent(s)
    ensures Consistent(AdminDeleteQuestion(s, c, id).state)
    ensures Consistent(AdminDeleteAnswer(s, c, id).state)
  {
    if c.role == Admin {
      ConsistentFrame(s, AdminDeleteQuestion(s, c, id).state);
      ConsistentFrame(s, AdminDeleteAnswer(s, c, id).state);
    }
  }

  lemma MarkAsReadKeepsConsistent(s: State, c: Caller, id: Id)
    requires Consistent(s)
    ensures Consistent(MarkAsRead(s, c, id).state)
  {
    var r := MarkAsRead(s, c, id);
    if r.status == Ok {
      forall q | q in r.state.questions
        ensures QuestionLinked(r.state, q)
      {
        assert QuestionLinked(s, q);
      }
    }
  }

  /** A created tag keeps the names unique: the store refuses a name it
      already holds. */
  lemma {:induction false} CreateTagKeepsConsistent(s: State, c: Caller, name: Option<string>)
    requires Consistent(s)
    ensures Consistent(CreateTag(s, c, name).state)
  {
    var r := CreateTag(s, c, name);
    if r.status == Created {
      var t := s.tags + [name.value];
      forall i, j | 0 <= i < j < |t|
        ensures t[i] != t[j]
      {
        if j == |s.tags| { assert t[i] == s.tags[i]; }
      }
      forall q | q in r.state.questions
        ensures QuestionLinked(r.state, q)
      {
        assert QuestionLinked(s, q);
      }
    }
  }

  lemma UserRolesKeepConsistent(s: State, c: Caller, user: Id)
    requires Consistent(s)
    ensures Consistent(DeleteUser(s, c, user).state)
    ensures Consistent(BanUser(s, c, user).state)
    ensures Consistent(UnbanUser(s, c, user).state)
  {
    ConsistentFrame(s, DeleteUser(s, c, user).state);
    ConsistentFrame(s, BanUser(s, c, user).state);
    ConsistentFrame(s, UnbanUser(s, c, user).state);
  }

  /** A notification added at the next id keeps the invariant. */
  lemma NotifyKeepsConsistent(s: State, user: Id, kind: string, message: string, question: Id, now: int)
    requires Consistent(s)
    ensures Consistent(Notify(s, user, kind, message, question, now))
  {
    var t := Notify(s, user, kind, message, question, now);
    forall q | q in t.questions
      ensures QuestionLinked(t, q)
    {
      assert QuestionLinked(s, q);
    }
  }

  lemma CreateQuestionWithImagesKeepsConsistent(s: State, c: Caller, title: Option<string>, description: Option<string>,
                                                tags: Option<seq<string>>, upload: string -> Option<Uploaded>, now: int)
    requires Consistent(s)
    ensures Consistent(CreateQuestionWithImages(s, c, title, description, tags, upload, now).state)
  {
    var images := ExtractImages(ContentText(description), upload);
    CreateQuestionKeepsConsistent(s, c, title, description, tags, images, now);
    var posted := PostQuestion(s, c, title, description, tags, images, now);
    if posted.status == Created {
      NotifyKeepsConsistent(posted.state, c.id, QuestionPostedKind, QuestionPostedMessage, s.nextId, now);
    }
  }

  lemma CreateAnswerWithImagesKeepsConsistent(s: State, c: Caller, question: Id, description: Option<string>,
                                              upload: string -> Option<Uploaded>, now: int)
    requires Consistent(s)
    ensures Consistent(CreateAnswerWithImages(s, c, question, description, upload, now).state)
  {
    var images := ExtractImages(ContentText(description), upload);
    CreateAnswerKeepsConsistent(s, c, question, description, images, now);
    var posted := PostAnswer(s, c, question, description, images, now);
    var r := CreateAnswerWithImages(s, c, question, description, upload, now);
    if posted.status == Created && question in posted.state.questions && posted.state.questions[question].user != c.id {
      var t := posted.state;
      NotifyKeepsConsistent(t, t.questions[question].user, AnswerKind, AnswerMessage, question, now);
      assert r.state == Notify(t, t.questions[question].user, AnswerKind, AnswerMessage, question, now);
    } else {
      assert r.state == posted.state;
    }
  }

  lemma UpdateAnswerWithImagesKeepsConsistent(s: State, c: Caller, id: Id, description: Option<string>,
                                              upload: string -> Option<Uploaded>)
    requires Consistent(s)
    ensures Consistent(UpdateAnswerWithImages(s, c, id, description, upload).state)
  {
    var r := UpdateAnswerWithImages(s, c, id, description, upload);
    if r.status == Ok {
      forall q | q in r.state.questions
        ensures QuestionLinked(r.state, q)
      {
        assert QuestionLinked(s, q);
      }
    }
  }

  // ----- how the handlers compose -----

  /** Marking a notification read twice is marking it once. */
  lemma MarkAsReadIdempotent(s: State, c: Caller, id: Id)
    ensures var once := MarkAsRead(s, c, id);
      MarkAsRead(once.state, c, id) == Outcome(once.status, once.state)
  {
    var once := MarkAsRead(s, c, id);
    if once.status == Ok {
      assert once.state.notifications[id] == s.notifications[id].(isRead := true);
      assert once.state.notifications[id := once.state.notifications[id].(isRead := true)] == once.state.notifications;
    }
  }

  /** Deleting a user twice leaves the same store as deleting it once, and
      both calls report success to an admin. */
  lemma DeleteUserIdempotent(s: State, c: Caller, user: Id)
    ensures var once := DeleteUser(s, c, user);
      DeleteUser(once.state, c, user) == once
  {
    var once := DeleteUser(s, c, user);
    if c.role == Admin {
      assert once.state.users - {user} == s.users - {user};
    }
  }

  /** Unbanning an admin demotes them to an ordinary user. */
  lemma UnbanDemotesAdmin(s: State, c: Caller, user: Id)
    requires c.role == Admin && user in s.users && s.users[user] == Admin
    ensures UnbanUser(s, c, user).status == Ok
    ensures UnbanUser(s, c, user).state.users[user] == User
  {
  }

  /** An edit that omits the description keeps the old text but leaves the
      document without images: the scan of the text "undefined" finds none. */
  lemma OmittedDescriptionDropsImages(s: State, c: Caller, id: Id, title: Option<string>,
                                      tags: Option<seq<string>>, upload: string -> Option<Uploaded>)
    ensures var r := UpdateQuestionWithImages(s, c, id, title, None, tags, upload);
      r.status == Ok ==>
        r.state.questions[id].images == [] && r.state.questions[id].description == s.questions[id].description
    ensures var r := UpdateAnswerWithImages(s, c, id, None, upload);
      r.status == Ok ==>
        r.state.answers[id].images == [] && r.state.answers[id].description == s.answers[id].description
  {
    NoTagNoSrcs("undefined", 0);
    assert ExtractImages(ContentText(None), upload) == [];
  }

  /** On a consistent store an edit by its owner or an admin fails only when
      it supplies a tag list holding an empty tag. */
  lemma EditFailsOnlyOnEmptyTag(s: State, c: Caller, id: Id, title: Option<string>, description: Option<string>,
                                tags: Option<seq<string>>, images: Option<seq<ImageRef>>)
    requires Consistent(s)
    ensures EditQuestion(s, c, id, title, description, tags, images).status == ServerError <==>
      id in s.questions && OwnerOrAdmin(c, s.questions[id].user) &&
      tags.Some? && exists k :: 0 <= k < |tags.value| && tags.value[k] == ""
  {
  }

  /** On a consistent store an answer edit by its owner or an admin always
      succeeds: a falsy description keeps the stored, non-empty one. */
  lemma UpdateAnswerNeverFails(s: State, c: Caller, id: Id, description: Option<string>,
                               upload: string -> Option<Uploaded>)
    requires Consistent(s) && id in s.answers && OwnerOrAdmin(c, s.answers[id].user)
    ensures UpdateAnswer(s, c, id, description).status == Ok
    ensures UpdateAnswerWithImages(s, c, id, description, upload).status == Ok
  {
  }

  /** The notification that a new question sends goes to its author; the one
      a new answer sends never goes to the one answering. */
  lemma NotificationRecipients(s: State, c: Caller, question: Id, title: Option<string>, description: Option<string>,
                               tags: Option<seq<string>>, upload: string -> Option<Uploaded>, now: int)
    requires Consistent(s)
    ensures var r := CreateQuestionWithImages(s, c, title, description, tags, upload, now);
      r.status == Created ==>
        forall n :: n in r.state.notifications && n !in s.notifications ==> r.state.notifications[n].user == c.id
    ensures var r := CreateAnswerWithImages(s, c, question, description, upload, now);
      r.status == Created ==>
        forall n :: n in r.state.notifications && n !in s.notifications ==> r.state.notifications[n].user != c.id
  {
  }
}
