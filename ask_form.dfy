/** The "ask a question" form: how the comma-separated tag field becomes a
    list of tags, which server messages are shown to the user, and how a
    submission moves the form's state. */
module AskForm {
  import opened Wrappers
  import opened Text
  import Records

  const TagSeparator := ','
  const PostedMessage := "Question posted successfully!"
  /** Words that mark a message about signing in, which is never shown. */
  const HiddenWords: seq<string> := ["token", "unauthorized", "login"]

  /** The trimmed pieces, with the empty ones dropped, in order. */
  function TidyTags(pieces: seq<string>): (r: seq<string>)
    ensures |r| <= |pieces|
    ensures forall k :: 0 <= k < |r| ==> r[k] != [] && Trimmed(r[k])
    ensures |pieces| == 1 ==> r == (if Trim(pieces[0]) == [] then [] else [Trim(pieces[0])])
    ensures (forall k :: 0 <= k < |pieces| ==> TagSeparator !in pieces[k]) ==>
              forall k :: 0 <= k < |r| ==> TagSeparator !in r[k]
  {
    if pieces == [] then []
    else
      var t := Trim(pieces[0]);
      var rest := TidyTags(pieces[1..]);
      assert (forall k :: 0 <= k < |pieces| ==> TagSeparator !in pieces[k]) ==>
        forall k :: 0 <= k < |pieces[1..]| ==> TagSeparator !in pieces[1..][k];
      TrimIsPiece(pieces[0]);
      if t == [] then rest else [t] + rest
  }

  /** Tidying works piece by piece: the tags of two lists of pieces are the
      tags of the first followed by those of the second. */
  lemma {:induction false} TidyTagsAppend(a: seq<string>, b: seq<string>)
    ensures TidyTags(a + b) == TidyTags(a) + TidyTags(b)
  {
    if a == [] {
      assert a + b == b;
    } else {
      assert (a + b)[1..] == a[1..] + b;
      TidyTagsAppend(a[1..], b);
    }
  }

  /** Each piece trimmed (`pieces.map(t => t.trim())`). */
  function TrimAll(pieces: seq<string>): (r: seq<string>)
    ensures |r| == |pieces|
    ensures forall j :: 0 <= j < |pieces| ==> r[j] == Trim(pieces[j])
  {
    seq(|pieces|, j requires 0 <= j < |pieces| => Trim(pieces[j]))
  }

  /** `filter(Boolean)` keeps the strings that are not empty. */
  predicate NotBlank(t: string)
  {
    t != []
  }

  /** Tidying is trimming every piece and then keeping the non-empty ones, in
      order; so every tag is a trimmed piece and every piece that is not
      blank gives its trimmed self as a tag. */
  lemma {:induction false} TidyTagsIsTrimThenFilter(pieces: seq<string>)
    ensures TidyTags(pieces) == Records.Filter(TrimAll(pieces), NotBlank)
  {
    if pieces != [] {
      var trims := TrimAll(pieces);
      assert trims[1..] == TrimAll(pieces[1..]);
      TidyTagsIsTrimThenFilter(pieces[1..]);
    }
  }

  /** A trimmed string is a piece of the original, so it holds no character
      the original does not. */
  lemma TrimIsPiece(s: string)
    ensures forall c :: c in Trim(s) ==> c in s
  {
    var r := Trim(s);
    var i := LeadingSpace(s);
    forall c | c in r
      ensures c in s
    {
      var k :| 0 <= k < |r| && r[k] == c;
      assert s[i + k] == c;
    }
  }

  /** `tags.split(',').map(t => t.trim()).filter(Boolean)`. */
  function ParseTags(field: string): seq<string>
  {
    TidyTags(Split(field, TagSeparator))
  }

  /** Every parsed tag is non-empty, has no white space at its ends and holds
      no comma; there are at most one more tags than commas. */
  lemma ParsedTagsAreClean(field: string)
    ensures var tags := ParseTags(field);
      && |tags| <= Count(field, TagSeparator) + 1
      && forall k :: 0 <= k < |tags| ==> tags[k] != [] && Trimmed(tags[k]) && TagSeparator !in tags[k]
  {
  }

  /** The parsed tags are the pieces between commas, trimmed, with the empty
      ones dropped, in order. */
  lemma ParsedTagsArePieces(field: string)
    ensures ParseTags(field) == Records.Filter(TrimAll(Split(field, TagSeparator)), NotBlank)
  {
    TidyTagsIsTrimThenFilter(Split(field, TagSeparator));
  }

  /** A field of nothing but white space and commas gives no tags. */
  lemma {:induction false} BlankFieldHasNoTags(field: string)
    requires forall k :: 0 <= k < |field| ==> field[k] == TagSeparator || IsJsWhitespace(field[k])
    ensures ParseTags(field) == []
  {
    var pieces := Split(field, TagSeparator);
    PiecesAreBlank(field);
    BlankPiecesVanish(pieces);
  }

  /** The pieces of a field of white space and commas are white space. */
  lemma {:induction false} PiecesAreBlank(field: string)
    requires forall k :: 0 <= k < |field| ==> field[k] == TagSeparator || IsJsWhitespace(field[k])
    ensures forall k :: 0 <= k < |Split(field, TagSeparator)| ==> AllWhitespace(Split(field, TagSeparator)[k])
  {
    if field != [] {
      PiecesAreBlank(field[1..]);
      var rest := Split(field[1..], TagSeparator);
      if field[0] != TagSeparator {
        var head := [field[0]] + rest[0];
        assert AllWhitespace(rest[0]);
        assert AllWhitespace(head) by {
          forall j | 0 <= j < |head|
            ensures IsJsWhitespace(head[j])
          {
            if j > 0 { assert head[j] == rest[0][j - 1]; }
          }
        }
        var r := [head] + rest[1..];
        assert Split(field, TagSeparator) == r;
        forall k | 0 <= k < |r|
          ensures AllWhitespace(r[k])
        {
          if k > 0 { assert r[k] == rest[k]; }
        }
      }
    }
  }

  lemma {:induction false} BlankPiecesVanish(pieces: seq<string>)
    requires forall k :: 0 <= k < |pieces| ==> AllWhitespace(pieces[k])
    ensures TidyTags(pieces) == []
  {
    if pieces != [] {
      TrimOfWhitespace(pieces[0]);
      BlankPiecesVanish(pieces[1..]);
    }
  }

  /** A well-formed tag: non-empty, trimmed, without a comma. */
  predicate WellFormedTag(t: string)
  {
    t != [] && Trimmed(t) && TagSeparator !in t
  }

  /** Joining well-formed tags with commas and parsing the field gives them
      back, in order. */
  lemma {:induction false} ParseJoinedTags(tags: seq<string>)
    requires forall k :: 0 <= k < |tags| ==> WellFormedTag(tags[k])
    ensures ParseTags(Join(tags, TagSeparator)) == tags
  {
    var field := Join(tags, TagSeparator);
    if tags == [] {
      BlankFieldHasNoTags(field);
    } else {
      assert forall k :: 0 <= k < |tags| ==> TagSeparator !in tags[k];
      SplitJoined(tags);
      assert Split(field, TagSeparator) == tags;
      TidyWellFormed(tags);
    }
  }

  lemma {:induction false} SplitJoined(tags: seq<string>)
    requires tags != []
    requires forall k :: 0 <= k < |tags| ==> TagSeparator !in tags[k]
    ensures Split(Join(tags, TagSeparator), TagSeparator) == tags
  {
    if |tags| == 1 {
      SplitNoSeparator(tags[0], TagSeparator);
    } else {
      SplitJoined(tags[1..]);
      SplitAfterPiece(tags[0], Join(tags[1..], TagSeparator), TagSeparator);
      assert [tags[0]] + tags[1..] == tags;
    }
  }

  lemma {:induction false} TidyWellFormed(tags: seq<string>)
    requires forall k :: 0 <= k < |tags| ==> WellFormedTag(tags[k])
    ensures TidyTags(tags) == tags
  {
    if tags != [] {
      var rest := tags[1..];
      assert forall k :: 0 <= k < |rest| ==> WellFormedTag(rest[k]) by {
        forall k | 0 <= k < |rest|
          ensures WellFormedTag(rest[k])
        {
          assert rest[k] == tags[k + 1];
        }
      }
      TidyWellFormed(rest);
      TidyKeepsHead(tags);
      assert [tags[0]] + rest == tags;
    }
  }

  /** A well-formed first piece is kept as it is. */
  lemma TidyKeepsHead(tags: seq<string>)
    requires tags != [] && WellFormedTag(tags[0])
    ensures TidyTags(tags) == [tags[0]] + TidyTags(tags[1..])
  {
    TrimOfTrimmed(tags[0]);
  }

  /** The message a failed submission shows: the server's message, unless it
      is missing or empty or mentions a token, authorization or login in any
      letter case, in which case nothing is shown. */
  function ShownError(message: Option<string>): (shown: string)
    ensures shown == [] || (message.Some? && shown == message.value)
    ensures shown != [] <==>
      message.Some? && message.value != [] &&
      forall w :: w in HiddenWords ==> !ContainsIgnoreCase(message.value, w)
  {
    if message.Some? && message.value != [] &&
       !ContainsIgnoreCase(message.value, "token") &&
       !ContainsIgnoreCase(message.value, "unauthorized") &&
       !ContainsIgnoreCase(message.value, "login")
    then message.value
    else ""
  }

  /** What the form sends to create a question. */
  datatype QuestionRequest = QuestionRequest(title: string, description: string, tags: seq<string>)

  /** How the request ended: posted, or refused with the server's message
      (absent when the reply carried none). */
  datatype Reply = Posted | Refused(message: Option<string>)

  /** The form's state. */
  class Form {
    var title: string
    var description: string
    var tagField: string
    var loading: bool
    var error: string
    var success: string

    constructor ()
      ensures title == [] && description == [] && tagField == []
      ensures !loading && error == [] && success == []
    {
      title := [];
      description := [];
      tagField := [];
      loading := false;
      error := [];
      success := [];
    }

    /** The start of a submission: both messages are cleared, the form is
        loading, and the request carries the fields and the parsed tags. */
    method BeginSubmit() returns (request: QuestionRequest)
      modifies this
      ensures error == [] && success == [] && loading
      ensures title == old(title) && description == old(description) && tagField == old(tagField)
      ensures request == QuestionRequest(title, description, ParseTags(tagField))
    {
      error := [];
      success := [];
      loading := true;
      request := QuestionRequest(title, description, ParseTags(tagField));
    }

    /** The end of a submission: on success the fields are reset and the
        success message is set; on failure the fields are kept and the error
        is the server's message when it may be shown. Either way the form is
        no longer loading. */
    method FinishSubmit(reply: Reply)
      modifies this
      ensures !loading
      ensures reply == Posted ==>
        title == [] && description == [] && tagField == [] && success == PostedMessage && error == old(error)
      ensures reply.Refused? ==>
        && error == ShownError(reply.message) && success == old(success)
        && title == old(title) && description == old(description) && tagField == old(tagField)
    {
      if reply == Posted {
        success := PostedMessage;
        title := [];
        description := [];
        tagField := [];
      } else {
        error := ShownError(reply.message);
      }
      loading := false;
    }
  }
}
