/** The plain-text preview of a question's rich-text description that a
    question card shows: image tags and then every other tag are stripped,
    two entities are decoded, and the text is trimmed and cut to a maximum
    length. */
module TextPreview {
  import opened Wrappers
  import opened Text

  const DefaultMaxLength: nat := 120
  const Ellipsis: string := "..."
  const NoPreview: string := "No preview available."

  /** `<img`, in any mix of cases, starts at index `i`. With the `i` flag
      the letters match their ASCII upper-case forms and nothing else. */
  predicate ImgOpenAt(s: string, i: int)
  {
    && 0 <= i && i + |ImgOpen| <= |s|
    && s[i] == '<'
    && (s[i + 1] == 'i' || s[i + 1] == 'I')
    && (s[i + 2] == 'm' || s[i + 2] == 'M')
    && (s[i + 3] == 'g' || s[i + 3] == 'G')
  }

  /** `s.replace(/<img[^>]*>/gi, '')`: at each position from the left, an
      image tag runs from `<img` to the first `>` after it and is dropped;
      any other character is kept. */
  function StripImages(s: string): (r: string)
    ensures |r| <= |s|
    ensures forall k :: 0 <= k < |r| ==> r[k] in s
    decreases |s|
  {
    if s == [] then []
    else if ImgOpenAt(s, 0) && RunEnd(s, |ImgOpen|, '>') < |s| then
      var rest := StripImages(s[RunEnd(s, |ImgOpen|, '>') + 1..]);
      assert forall k :: 0 <= k < |rest| ==> rest[k] in s;
      rest
    else
      var rest := StripImages(s[1..]);
      assert forall k :: 0 <= k < |rest| ==> rest[k] in s;
      [s[0]] + rest
  }

  /** `s.replace(/<[^>]+>/g, '')`: a `<` followed by at least one character
      other than `>` and then a `>` is a tag and is dropped. */
  function StripTags(s: string): (r: string)
    ensures |r| <= |s|
    ensures forall k :: 0 <= k < |r| ==> r[k] in s
    decreases |s|
  {
    if s == [] then []
    else if s[0] == '<' && 1 < RunEnd(s, 1, '>') < |s| then
      var rest := StripTags(s[RunEnd(s, 1, '>') + 1..]);
      assert forall k :: 0 <= k < |rest| ==> rest[k] in s;
      rest
    else
      var rest := StripTags(s[1..]);
      assert forall k :: 0 <= k < |rest| ==> rest[k] in s;
      [s[0]] + rest
  }

  /** No tag `<…>` with at least one character inside is left in `t`: a `<`
      followed by another character than `>` is never closed. */
  predicate NoTag(t: string)
  {
    forall i :: 0 <= i < |t| - 1 && t[i] == '<' && t[i + 1] != '>' ==> '>' !in t[i..]
  }

  /** A string that does not start with `<` keeps its first character. */
  lemma StripTagsHead(s: string)
    requires s != [] && s[0] != '<'
    ensures StripTags(s) != [] && StripTags(s)[0] == s[0]
  {
  }

  /** Removing tags leaves none behind. */
  lemma {:induction false} StripTagsLeavesNone(s: string)
    ensures NoTag(StripTags(s))
    decreases |s|
  {
    if s == [] {
    } else if s[0] == '<' && 1 < RunEnd(s, 1, '>') < |s| {
      StripTagsLeavesNone(s[RunEnd(s, 1, '>') + 1..]);
    } else {
      var rest := StripTags(s[1..]);
      StripTagsLeavesNone(s[1..]);
      var r := [s[0]] + rest;
      assert StripTags(s) == r;
      forall i | 0 <= i < |r| - 1 && r[i] == '<' && r[i + 1] != '>'
        ensures '>' !in r[i..]
      {
        if i == 0 {
          if |s| >= 2 && s[1] == '>' {
            StripTagsHead(s[1..]);
            assert false;
          }
          assert RunEnd(s, 1, '>') == |s|;
          assert '>' !in s[1..];
          assert r[i..] == [s[0]] + rest;
        } else {
          assert r[i..] == rest[i - 1..];
        }
      }
    }
  }

  /** Without any `<` there is nothing to strip. */
  lemma {:induction false} StripNothing(s: string)
    requires '<' !in s
    ensures StripImages(s) == s && StripTags(s) == s
  {
    if s != [] {
      StripNothing(s[1..]);
      assert [s[0]] + s[1..] == s;
    }
  }

  /** Text without `<` in front of the rest is kept as it is by the tag
      removal. */
  lemma {:induction false} StripTagsPlainPrefix(a: string, b: string)
    requires '<' !in a
    ensures StripTags(a + b) == a + StripTags(b)
  {
    if a == [] {
      assert a + b == b;
    } else {
      HeadAndTail(a, b);
      HeadAndTail(a, StripTags(b));
      StripTagsPrefixStep(a, b);
      StripTagsPlainPrefix(a[1..], b);
    }
  }

  /** One step of the above: a first character other than `<` is kept in
      front of the rest. */
  lemma StripTagsPrefixStep(a: string, b: string)
    requires a != [] && a[0] != '<'
    ensures StripTags(a + b) == [a[0]] + StripTags(a[1..] + b)
  {
    var s := a + b;
    assert s[0] == a[0] && s[1..] == a[1..] + b;
  }

  /** A tag `<m>` with something inside is dropped, and nothing else. */
  lemma StripTagsDropsTag(m: string, b: string)
    requires m != [] && '>' !in m
    ensures StripTags("<" + m + ">" + b) == StripTags(b)
  {
    var s := "<" + m + ">" + b;
    assert forall k :: 1 <= k < |m| + 1 ==> s[k] == m[k - 1];
    assert s[|m| + 1] == '>';
    assert RunEnd(s, 1, '>') == |m| + 1;
    assert s[|m| + 2..] == b;
  }

  /** The text before a tag is kept and the tag is dropped:
      `(a + "<m>" + b).replace(/<[^>]+>/g, '')` is `a` followed by the
      stripped `b`. */
  lemma StripTagsSplit(a: string, m: string, b: string)
    requires '<' !in a && m != [] && '>' !in m
    ensures StripTags(a + "<" + m + ">" + b) == a + StripTags(b)
  {
    Regroup(a, "<", m, ">", b);
    StripTagsPlainPrefix(a, "<" + m + ">" + b);
    StripTagsDropsTag(m, b);
  }

  /** Text in front of a tag and the text from the tag on. */
  lemma Regroup(a: string, open: string, m: string, close: string, b: string)
    ensures a + open + m + close + b == a + (open + m + close + b)
  {
  }

  /** No image tag starts at a character other than `<`. */
  lemma NoImgOpenWithoutLt(s: string, i: int)
    requires 0 <= i < |s| && s[i] != '<'
    ensures !ImgOpenAt(s, i)
  {
  }

  /** Text without `<` in front of the rest is kept as it is by the image
      tag removal. */
  lemma {:induction false} StripImagesPlainPrefix(a: string, b: string)
    requires '<' !in a
    ensures StripImages(a + b) == a + StripImages(b)
  {
    if a == [] {
      assert a + b == b;
    } else {
      HeadAndTail(a, b);
      HeadAndTail(a, StripImages(b));
      StripImagesPrefixStep(a, b);
      StripImagesPlainPrefix(a[1..], b);
    }
  }

  /** Splitting off the first character of the front part. */
  lemma HeadAndTail(a: string, b: string)
    requires a != []
    ensures a + b == [a[0]] + (a[1..] + b)
    ensures forall x :: x in a[1..] ==> x in a
  {
    assert a == [a[0]] + a[1..];
  }

  /** One step of the above: the first character is kept in front of the
      rest. */
  lemma StripImagesPrefixStep(a: string, b: string)
    requires a != [] && a[0] != '<'
    ensures StripImages(a + b) == [a[0]] + StripImages(a[1..] + b)
  {
    var s := a + b;
    assert s[0] == a[0] && s[1..] == a[1..] + b;
    NoImgOpenWithoutLt(s, 0);
    StripImagesKeepsHead(s);
  }

  /** A first character that does not open an image tag is kept. */
  lemma StripImagesKeepsHead(s: string)
    requires s != [] && !ImgOpenAt(s, 0)
    ensures StripImages(s) == [s[0]] + StripImages(s[1..])
  {
  }

  /** An image tag, `<img` in any case up to the next `>`, is dropped, and
      nothing else. */
  lemma StripImagesDropsTag(tag: string, m: string, b: string)
    requires |tag| == |ImgOpen| && ImgOpenAt(tag, 0) && '>' !in m
    ensures StripImages(tag + m + ">" + b) == StripImages(b)
  {
    var s := tag + m + ">" + b;
    var n := |ImgOpen|;
    assert s[0..n] == tag;
    assert forall k :: n <= k < n + |m| ==> s[k] == m[k - n];
    assert s[n + |m|] == '>';
    assert RunEnd(s, n, '>') == n + |m|;
    assert s[n + |m| + 1..] == b;
  }

  /** The text before an image tag is kept and the tag is dropped:
      `(a + "<img…>" + b).replace(/<img[^>]*>/gi, '')` is `a` followed by
      the stripped `b`. */
  lemma StripImagesSplit(a: string, tag: string, m: string, b: string)
    requires '<' !in a
    requires |tag| == |ImgOpen| && ImgOpenAt(tag, 0) && '>' !in m
    ensures StripImages(a + tag + m + ">" + b) == a + StripImages(b)
  {
    Regroup(a, tag, m, ">", b);
    StripImagesPlainPrefix(a, tag + m + ">" + b);
    StripImagesDropsTag(tag, m, b);
  }

  /** An image tag between two pieces of text does not change the preview:
      the card shows what it would show without the image. */
  lemma ImageTagIgnored(a: string, tag: string, m: string, b: string, maxLength: nat)
    requires '<' !in a && a + b != []
    requires |tag| == |ImgOpen| && ImgOpenAt(tag, 0) && '>' !in m
    ensures Preview(Some(a + tag + m + ">" + b), maxLength) == Preview(Some(a + b), maxLength)
  {
    StripImagesSplit(a, tag, m, b);
    StripImagesPlainPrefix(a, b);
  }

  /** `&nbsp;` becomes a space, then `&amp;` becomes `&`. */
  function DecodeEntities(t: string): string
  {
    ReplaceAll(ReplaceAll(t, "&nbsp;", " "), "&amp;", "&")
  }

  /** The text of rich-text content: image tags and then other tags
      stripped, entities decoded, white space trimmed. */
  function PlainText(html: string): string
  {
    Trim(DecodeEntities(StripTags(StripImages(html))))
  }

  /** Text cut to `maxLength` characters and trimmed, with `...` added. */
  function Truncate(text: string, maxLength: nat): (r: string)
    requires |text| > maxLength
    ensures Trimmed(r) && r != [] && |r| <= maxLength + |Ellipsis|
    ensures r == Trim(text[..maxLength]) + Ellipsis
  {
    var head := Trim(text[..maxLength]);
    var r := head + Ellipsis;
    assert r[|r| - 1] == '.';
    assert r[0] == if head == [] then '.' else head[0];
    r
  }

  /** `getTextPreview(html, maxLength)`. An absent or empty `html` gives the
      empty string; otherwise the stripped, decoded and trimmed text, cut to
      `maxLength` characters with `...` when it is longer, and a fixed
      notice when nothing is left. */
  function Preview(html: Option<string>, maxLength: nat): (r: string)
    ensures html.None? || html.value == [] <==> r == []
    ensures Trimmed(r)
    ensures r == NoPreview || |r| <= maxLength + |Ellipsis|
    ensures html.Some? && html.value != [] ==>
      var text := PlainText(html.value);
      && (text == [] ==> r == NoPreview)
      && (0 < |text| <= maxLength ==> r == text)
      && (|text| > maxLength ==> r == Trim(text[..maxLength]) + Ellipsis)
  {
    if html.None? || html.value == [] then ""
    else
      var text := PlainText(html.value);
      var cut := if |text| > maxLength then Truncate(text, maxLength) else text;
      if cut == [] then NoticeTrimmed(); NoPreview else cut
  }

  lemma NoticeTrimmed()
    ensures Trimmed(NoPreview) && NoPreview != []
  {
    assert NoPreview[0] == 'N' && NoPreview[|NoPreview| - 1] == '.';
  }

  /** The preview a question card shows, with the default length. */
  function CardPreview(html: Option<string>): string
  {
    Preview(html, DefaultMaxLength)
  }

  /** Text with neither markup nor entities, short enough, previews as
      itself trimmed. */
  lemma PlainTextPreview(s: string, maxLength: nat)
    requires '<' !in s && '&' !in s
    requires Trim(s) != [] && |Trim(s)| <= maxLength
    ensures Preview(Some(s), maxLength) == Trim(s)
  {
    StripNothing(s);
    DecodeNothing(s);
  }

  /** A paragraph of plain text, short enough, previews as that text
      trimmed: the `<p>` and `</p>` tags go and nothing else does. */
  lemma ParagraphPreview(s: string, maxLength: nat)
    requires '<' !in s && '&' !in s
    requires Trim(s) != [] && |Trim(s)| <= maxLength
    ensures Preview(Some("<p>" + s + "</p>"), maxLength) == Trim(s)
  {
    ParagraphKeptByImageStrip(s);
    ParagraphTagsStripped(s);
    DecodeNothing(s);
  }

  /** The tag strip leaves the text of a paragraph. */
  lemma ParagraphTagsStripped(s: string)
    requires '<' !in s
    ensures StripTags("<p>" + s + "</p>") == s
  {
    var html := "<p>" + s + "</p>";
    assert html == [] + "<" + "p" + ">" + (s + "</p>");
    StripTagsSplit([], "p", s + "</p>");
    StripTagsPlainPrefix(s, "</p>");
    assert "</p>" == [] + "<" + "/p" + ">" + [];
    StripTagsSplit([], "/p", []);
  }

  /** Text without `&` holds no entity to decode. */
  lemma DecodeNothing(s: string)
    requires '&' !in s
    ensures DecodeEntities(s) == s
  {
    NoAmpersand(s, "&nbsp;");
    ReplaceAllAbsent(s, "&nbsp;", " ");
    NoAmpersand(s, "&amp;");
    ReplaceAllAbsent(s, "&amp;", "&");
  }

  /** The tags `<p>` and `</p>` are not image tags: the image strip keeps a
      paragraph as it is. */
  lemma ParagraphKeptByImageStrip(s: string)
    requires '<' !in s
    ensures StripImages("<p>" + s + "</p>") == "<p>" + s + "</p>"
  {
    var body := "p>" + s;
    assert "<p>" + s + ClosingParagraph == "<" + (body + ClosingParagraph);
    StripImagesKeepsLt(body + ClosingParagraph);
    StripImagesPlainPrefix(body, ClosingParagraph);
    ClosingParagraphKept();
  }

  const ClosingParagraph := "</p>"

  /** The image strip leaves a closing paragraph tag alone. */
  lemma ClosingParagraphKept()
    ensures StripImages(ClosingParagraph) == ClosingParagraph
  {
    var rest := "/p>";
    assert ClosingParagraph == "<" + rest;
    StripImagesKeepsLt(rest);
    StripNothing(rest);
  }

  /** A `<` that does not open `<img` is kept. */
  lemma StripImagesKeepsLt(u: string)
    requires u != [] && u[0] != 'i' && u[0] != 'I'
    ensures StripImages("<" + u) == "<" + StripImages(u)
  {
    var s := "<" + u;
    assert s[1] == u[0] && s[1..] == u;
    StripImagesKeepsHead(s);
  }


  /** A pattern that starts with `&` does not occur in text without `&`. */
  lemma NoAmpersand(s: string, pat: string)
    requires '&' !in s && pat != [] && pat[0] == '&'
    ensures !Contains(s, pat)
  {
    forall i | 0 <= i <= |s|
      ensures !OccursAt(s, pat, i)
    {
      if i + |pat| <= |s| {
        assert s[i..i + |pat|][0] == s[i];
      }
    }
  }

  /** Longer text is cut: the preview ends with `...` and keeps at most
      `maxLength` characters of the text before it. */
  lemma LongTextIsCut(html: string, maxLength: nat)
    requires html != []
    requires |PlainText(html)| > maxLength
    ensures var r := Preview(Some(html), maxLength);
      && |r| >= |Ellipsis| && r[|r| - |Ellipsis|..] == Ellipsis && |r| <= maxLength + |Ellipsis|
      && r[..|r| - |Ellipsis|] == Trim(PlainText(html)[..maxLength])
  {
    var r := Preview(Some(html), maxLength);
    var head := Trim(PlainText(html)[..maxLength]);
    assert r == head + Ellipsis;
    assert r[..|r| - |Ellipsis|] == head;
  }
}
