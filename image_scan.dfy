/** The image references of rich-text content: the scan of the HTML for
    `<img ... src="...">` with the pattern `/<img[^>]+src="([^">]+)"/g`, the
    classification of each address (an address on the media host keeps the
    public id found by `/\/v\d+\/([^\/]+)\./`, a `data:image/` address is
    uploaded, anything else is dropped), and the release of stored images.
    The media host is an oracle: `upload` gives the stored image or `None`
    when the upload fails. */
module ImageScan {
  import opened Wrappers
  import opened Text
  import opened Records

  const SrcOpen: string := "src=\""
  const HostMarker: string := "cloudinary.com"
  const DataImagePrefix: string := "data:image/"
  const UploadedAlt: string := "Uploaded image"

  /** One match of the image pattern: where it starts, the captured address
      and the index just past the closing quote. */
  datatype Capture = Capture(start: nat, src: string, end: nat)

  /** What the media host answers to a successful upload. */
  datatype Uploaded = Uploaded(publicId: string, secureUrl: string)

  predicate SrcChar(c: char)
  {
    c != '"' && c != '>'
  }

  /** The end of the run of characters other than `"` and `>` that starts at
      `i` (what the greedy `[^">]+` consumes). */
  function SrcEnd(s: string, i: nat): (e: nat)
    requires i <= |s|
    ensures i <= e <= |s|
    ensures forall k :: i <= k < e ==> SrcChar(s[k])
    ensures e < |s| ==> !SrcChar(s[e])
    decreases |s| - i
  {
    if i == |s| || !SrcChar(s[i]) then i else SrcEnd(s, i + 1)
  }

  /** The tail `src="([^">]+)"` of the pattern matched at `q`: a non-empty
      address of characters other than `"` and `>`, then a closing quote.
      Since the address may not contain a quote, backtracking cannot find
      any other match at `q`. */
  predicate SrcMatch(s: string, q: nat, src: string, end: nat)
  {
    && q + |SrcOpen| < end <= |s|
    && s[q..q + |SrcOpen|] == SrcOpen
    && src == s[q + |SrcOpen|..end - 1]
    && s[end - 1] == '"'
    && src != []
    && (forall k :: 0 <= k < |src| ==> SrcChar(src[k]))
  }

  function SrcAt(s: string, q: nat): (c: Option<Capture>)
    requires q <= |s|
    ensures c.Some? ==> SrcMatch(s, q, c.value.src, c.value.end)
    ensures c.None? ==> forall src: string, end: nat :: !SrcMatch(s, q, src, end)
  {
    SrcMatchDetermined(s, q);
    if !StartsWith(s[q..], SrcOpen) then None
    else
      var e := SrcEnd(s, q + |SrcOpen|);
      if q + |SrcOpen| < e < |s| && s[e] == '"' then
        assert s[q..][..|SrcOpen|] == s[q..q + |SrcOpen|];
        Some(Capture(q, s[q + |SrcOpen|..e], e + 1))
      else
        None
  }

  /** Any match of the tail at `q` is the one the greedy scan finds: the
      address runs up to the first `"` or `>` after `src="`. */
  lemma SrcMatchDetermined(s: string, q: nat)
    requires q <= |s|
    ensures forall src: string, end: nat :: SrcMatch(s, q, src, end) ==>
      && StartsWith(s[q..], SrcOpen)
      && SrcEnd(s, q + |SrcOpen|) == end - 1
  {
    forall src: string, end: nat | SrcMatch(s, q, src, end)
      ensures StartsWith(s[q..], SrcOpen) && SrcEnd(s, q + |SrcOpen|) == end - 1
    {
      assert s[q..][..|SrcOpen|] == s[q..q + |SrcOpen|];
      var v := q + |SrcOpen|;
      forall k | v <= k < end - 1 ensures SrcChar(s[k]) {
        assert s[k] == src[k - v];
      }
      SrcEndIsFirstStop(s, v, end - 1);
    }
  }

  /** The run end is the first stop character. */
  lemma {:induction false} SrcEndIsFirstStop(s: string, i: nat, e: nat)
    requires i <= e < |s| && !SrcChar(s[e])
    requires forall k :: i <= k < e ==> SrcChar(s[k])
    ensures SrcEnd(s, i) == e
    decreases e - i
  {
    if i < e {
      SrcEndIsFirstStop(s, i + 1, e);
    }
  }

  /** The greedy `[^>]+` in front of `src="` gives back characters one at a
      time: the tail is tried at `q`, `q - 1`, ... down to `lo + 1`, and the
      first (largest) position where it matches wins. */
  function LastSrcIn(s: string, lo: nat, q: nat): (c: Option<Capture>)
    requires lo <= q <= |s|
    ensures c.Some? ==> lo < c.value.start <= q && SrcMatch(s, c.value.start, c.value.src, c.value.end)
    ensures c.Some? ==> forall q' :: c.value.start < q' <= q ==> SrcAt(s, q').None?
    ensures c.None? ==> forall q' :: lo < q' <= q ==> SrcAt(s, q').None?
    decreases q - lo
  {
    if q == lo then None
    else if SrcAt(s, q).Some? then
      var c := SrcAt(s, q).value;
      Some(Capture(q, c.src, c.end))
    else LastSrcIn(s, lo, q - 1)
  }

  /** A match of the whole pattern that starts at `p`, if any; `start` of the
      result is where the pattern starts. */
  function MatchAt(s: string, p: nat): (c: Option<Capture>)
    requires p <= |s|
    ensures c.Some? ==> c.value.start == p && p + |ImgOpen| < c.value.end <= |s|
  {
    if !StartsWith(s[p..], ImgOpen) then None
    else
      var b := p + |ImgOpen|;
      match LastSrcIn(s, b, RunEnd(s, b, '>'))
      case None => None
      case Some(t) => Some(Capture(p, t.src, t.end))
  }

  /** One `exec` of the global pattern with `lastIndex` at `from`: the
      leftmost match that starts at or after `from`. */
  function Exec(s: string, from: nat): (c: Option<Capture>)
    requires from <= |s|
    ensures c.Some? ==> from <= c.value.start <= |s| && MatchAt(s, c.value.start) == c
    ensures c.Some? ==> from < c.value.end <= |s|
    ensures c.Some? ==> forall p :: from <= p < c.value.start ==> MatchAt(s, p).None?
    ensures c.None? ==> forall p :: from <= p <= |s| ==> MatchAt(s, p).None?
    decreases |s| - from
  {
    if MatchAt(s, from).Some? then MatchAt(s, from)
    else if from == |s| then None
    else Exec(s, from + 1)
  }

  /** The addresses captured by repeated `exec` calls starting at `from`,
      left to right. */
  function SrcsFrom(s: string, from: nat): seq<string>
    requires from <= |s|
    decreases |s| - from
  {
    match Exec(s, from)
    case None => []
    case Some(c) => [c.src] + SrcsFrom(s, c.end)
  }

  /** Every address of an image tag of `s`, in document order. */
  function Srcs(s: string): seq<string>
  {
    SrcsFrom(s, 0)
  }

  /** A match is what the pattern describes: `<img`, one or more characters
      other than `>`, `src="`, the address and the closing quote; and among the
      positions where `src="` could follow, it is the last one (greedy). */
  lemma MatchAtIsPatternMatch(s: string, p: nat)
    requires p <= |s| && MatchAt(s, p).Some?
    ensures var c := MatchAt(s, p).value;
      && s[p..p + |ImgOpen|] == ImgOpen
      && exists q :: p + |ImgOpen| < q
          && SrcMatch(s, q, c.src, c.end)
          && (forall k :: p + |ImgOpen| <= k < q ==> s[k] != '>')
          && (forall q' :: q < q' <= RunEnd(s, p + |ImgOpen|, '>') ==> SrcAt(s, q').None?)
  {
    var b := p + |ImgOpen|;
    var t := LastSrcIn(s, b, RunEnd(s, b, '>')).value;
    assert s[p..][..|ImgOpen|] == s[p..p + |ImgOpen|];
    assert p + |ImgOpen| < t.start;
  }

  /** A captured address: non-empty, with neither `"` nor `>`. */
  predicate CleanSrc(src: string)
  {
    src != [] && '"' !in src && '>' !in src
  }

  /** The address of one `exec` match is clean. */
  lemma ExecSrcIsClean(s: string, from: nat)
    requires from <= |s| && Exec(s, from).Some?
    ensures CleanSrc(Exec(s, from).value.src)
  {
    var c := Exec(s, from).value;
    var b := c.start + |ImgOpen|;
    var t := LastSrcIn(s, b, RunEnd(s, b, '>')).value;
    assert SrcMatch(s, t.start, c.src, c.end);
    assert forall k :: 0 <= k < |c.src| ==> SrcChar(c.src[k]);
  }

  /** Every captured address is non-empty and holds neither `"` nor `>`. */
  lemma {:induction false} SrcsAreClean(s: string, from: nat)
    requires from <= |s|
    ensures forall k :: 0 <= k < |SrcsFrom(s, from)| ==> CleanSrc(SrcsFrom(s, from)[k])
    decreases |s| - from
  {
    var srcs := SrcsFrom(s, from);
    match Exec(s, from)
    case None =>
    case Some(c) =>
      ExecSrcIsClean(s, from);
      SrcsAreClean(s, c.end);
      var rest := SrcsFrom(s, c.end);
      assert srcs == [c.src] + rest;
      forall k | 0 <= k < |srcs|
        ensures CleanSrc(srcs[k])
      {
        if k > 0 { assert srcs[k] == rest[k - 1]; }
      }
  }

  /** Text without a `<` holds no image tag; this covers the text "undefined"
      that an omitted description turns into. */
  lemma NoTagNoSrcs(s: string, from: nat)
    requires from <= |s| && '<' !in s
    ensures SrcsFrom(s, from) == []
  {
    forall p | from <= p <= |s|
      ensures MatchAt(s, p).None?
    {
      if p + |ImgOpen| <= |s| {
        assert s[p] != '<';
        assert s[p..][..|ImgOpen|][0] == s[p];
      }
    }
  }

  // ----- the public id of an address on the media host -----

  predicate IsDigit(c: char)
  {
    '0' <= c <= '9'
  }

  function DigitEnd(u: string, i: nat): (e: nat)
    requires i <= |u|
    ensures i <= e <= |u|
    ensures forall k :: i <= k < e ==> IsDigit(u[k])
    ensures e < |u| ==> !IsDigit(u[e])
    decreases |u| - i
  {
    if i == |u| || !IsDigit(u[i]) then i else DigitEnd(u, i + 1)
  }

  /** The largest `k` with `lo < k < hi` and `u[k] == '.'`: where the greedy
      `[^\/]+` stops when it must be followed by `\.`. */
  function LastDotIn(u: string, lo: nat, hi: nat): (k: Option<nat>)
    requires lo <= hi <= |u|
    ensures k.Some? ==> lo < k.value < hi && u[k.value] == '.'
    ensures k.Some? ==> forall j :: k.value < j < hi ==> u[j] != '.'
    ensures k.None? ==> forall j :: lo < j < hi ==> u[j] != '.'
    decreases hi - lo
  {
    if hi <= lo + 1 then None
    else if u[hi - 1] == '.' then Some(hi - 1)
    else LastDotIn(u, lo, hi - 1)
  }

  /** `u` holds `/v<digits>/<id>.` with the slash at `i` and the digits ending
      at `d`: the shape the public-id pattern describes. */
  predicate PublicIdShape(u: string, i: nat, d: nat, id: string)
  {
    && i + 2 < d && d + 1 + |id| < |u|
    && u[i] == '/' && u[i + 1] == 'v'
    && (forall k :: i + 2 <= k < d ==> IsDigit(u[k]))
    && u[d] == '/'
    && u[d + 1..d + 1 + |id|] == id
    && u[d + 1 + |id|] == '.'
  }

  /** The public-id pattern matched at `i`, if it matches there. */
  function PublicIdAt(u: string, i: nat): (id: Option<string>)
    requires i <= |u|
    ensures id.Some? ==> id.value != [] && '/' !in id.value
    ensures id.Some? ==> exists d :: PublicIdShape(u, i, d, id.value)
  {
    if i + 2 <= |u| && u[i] == '/' && u[i + 1] == 'v' then
      var d := DigitEnd(u, i + 2);
      if i + 2 < d < |u| && u[d] == '/' then
        var n := d + 1;
        match LastDotIn(u, n, RunEnd(u, n, '/'))
        case None => None
        case Some(k) =>
          var id := u[n..k];
          assert forall j :: 0 <= j < |id| ==> id[j] == u[n + j];
          assert PublicIdShape(u, i, d, id);
          Some(id)
      else None
    else None
  }

  /** Whenever the pattern can match at `i`, it does: the capture found is
      at least as long as any that fits, because `[^\/]+` is greedy. */
  lemma PublicIdAtComplete(u: string, i: nat, d: nat, x: string)
    requires i <= |u| && x != [] && '/' !in x && PublicIdShape(u, i, d, x)
    ensures PublicIdAt(u, i).Some? && |PublicIdAt(u, i).value| >= |x|
  {
    assert DigitEnd(u, i + 2) == d;
    var n := d + 1;
    forall j | n <= j < n + |x|
      ensures u[j] != '/'
    {
      assert u[j] == u[n..n + |x|][j - n];
    }
    assert RunEnd(u, n, '/') > n + |x|;
  }

  /** The leftmost match is found whenever there is one at or after `i`. */
  lemma PublicIdFromComplete(u: string, i: nat, j: nat, d: nat, x: string)
    requires i <= j <= |u| && x != [] && '/' !in x && PublicIdShape(u, j, d, x)
    ensures PublicIdFrom(u, i).Some?
  {
    PublicIdAtComplete(u, j, d, x);
  }

  /** `u.match(/\/v\d+\/([^\/]+)\./)`: the capture of the leftmost match. */
  function PublicIdFrom(u: string, i: nat): (id: Option<string>)
    requires i <= |u|
    ensures id.Some? ==> id.value != [] && '/' !in id.value
    ensures id.Some? ==> exists j, d :: i <= j && PublicIdShape(u, j, d, id.value)
    ensures id.None? ==> forall j :: i <= j <= |u| ==> PublicIdAt(u, j).None?
    decreases |u| - i
  {
    if PublicIdAt(u, i).Some? then PublicIdAt(u, i)
    else if i == |u| then None
    else PublicIdFrom(u, i + 1)
  }

  // ----- classification and the scan -----

  /** The entry one captured address contributes, if any. */
  function Classify(src: string, upload: string -> Option<Uploaded>): Option<ImageRef>
  {
    if Contains(src, HostMarker) then
      match PublicIdFrom(src, 0)
      case Some(id) => Some(ImageRef(id, src, UploadedAlt))
      case None => None
    else if StartsWith(src, DataImagePrefix) then
      match upload(src)
      case Some(r) => Some(ImageRef(r.publicId, r.secureUrl, UploadedAlt))
      case None => None
    else None
  }

  /** The entries of a list of addresses, in order; addresses without an
      entry are skipped. */
  function ClassifyAll(srcs: seq<string>, upload: string -> Option<Uploaded>): (r: seq<ImageRef>)
    ensures |r| <= |srcs|
  {
    if srcs == [] then []
    else
      match Classify(srcs[0], upload)
      case Some(e) => [e] + ClassifyAll(srcs[1..], upload)
      case None => ClassifyAll(srcs[1..], upload)
  }

  /** The images extracted from content: one entry per classified address. */
  function ExtractImages(s: string, upload: string -> Option<Uploaded>): seq<ImageRef>
  {
    ClassifyAll(Srcs(s), upload)
  }

  /** `processImagesFromContent(content)`: a loop of `exec` calls that
      classifies each captured address and collects the entries. An omitted
      content is the text "undefined", as the regular expression sees it. */
  method ProcessImagesFromContent(content: Option<string>, upload: string -> Option<Uploaded>)
    returns (images: seq<ImageRef>)
    ensures images == ExtractImages(if content.Some? then content.value else "undefined", upload)
    ensures |images| <= |Srcs(if content.Some? then content.value else "undefined")|
  {
    var text := if content.Some? then content.value else "undefined";
    images := ScanImages(text, upload);
  }

  /** The `exec` loop over the text. */
  method ScanImages(text: string, upload: string -> Option<Uploaded>) returns (images: seq<ImageRef>)
    ensures images == ExtractImages(text, upload)
  {
    images := [];
    var lastIndex := 0;
    while true
      invariant lastIndex <= |text|
      invariant images + ClassifyAll(SrcsFrom(text, lastIndex), upload) == ExtractImages(text, upload)
      decreases |text| - lastIndex
    {
      var m := Exec(text, lastIndex);
      if m.None? {
        break;
      }
      ScanStep(text, lastIndex, upload, images);
      var entry := Classify(m.value.src, upload);
      if entry.Some? {
        images := images + [entry.value];
      }
      lastIndex := m.value.end;
    }
  }

  /** One `exec` of the scan: the entries from `from` on are the entry of
      the match found there, if any, followed by the entries after it. */
  lemma ScanStep(s: string, from: nat, upload: string -> Option<Uploaded>, found: seq<ImageRef>)
    requires from <= |s| && Exec(s, from).Some?
    ensures var c := Exec(s, from).value;
      var e := Classify(c.src, upload);
      found + ClassifyAll(SrcsFrom(s, from), upload) ==
        (if e.Some? then found + [e.value] else found) + ClassifyAll(SrcsFrom(s, c.end), upload)
  {
    var c := Exec(s, from).value;
    var srcs := SrcsFrom(s, from);
    var rest := ClassifyAll(SrcsFrom(s, c.end), upload);
    assert srcs[0] == c.src && srcs[1..] == SrcsFrom(s, c.end);
    if Classify(c.src, upload).Some? {
      assert found + ([Classify(c.src, upload).value] + rest) == (found + [Classify(c.src, upload).value]) + rest;
    }
  }

  /** Entries on the media host keep the address and carry a public id cut
      from `/v<digits>/<id>.` in it, with no slash in the id. */
  lemma HostEntry(src: string, upload: string -> Option<Uploaded>)
    requires Contains(src, HostMarker)
    ensures Classify(src, upload).Some? <==> PublicIdFrom(src, 0).Some?
    ensures Classify(src, upload).Some? ==>
      var e := Classify(src, upload).value;
      && e.url == src && e.alt == UploadedAlt
      && e.publicId != [] && '/' !in e.publicId
      && exists i, d :: PublicIdShape(src, i, d, e.publicId)
  {
  }

  /** A `data:image/` address that is not on the media host gives the stored
      image when the upload succeeds and nothing when it fails. */
  lemma DataEntry(src: string, upload: string -> Option<Uploaded>)
    requires !Contains(src, HostMarker) && StartsWith(src, DataImagePrefix)
    ensures upload(src).None? ==> Classify(src, upload).None?
    ensures upload(src).Some? ==>
      Classify(src, upload) == Some(ImageRef(upload(src).value.publicId, upload(src).value.secureUrl, UploadedAlt))
  {
  }

  /** An address that is neither on the media host nor a `data:image/` URI
      gives no entry. */
  lemma OtherEntry(src: string, upload: string -> Option<Uploaded>)
    requires !Contains(src, HostMarker) && !StartsWith(src, DataImagePrefix)
    ensures Classify(src, upload).None?
  {
  }

  /** The scan keeps document order: the entries of two stretches of
      addresses are those of the first followed by those of the second, so an
      address without an entry (a failed upload) drops only itself. */
  lemma {:induction false} ClassifyAllAppend(a: seq<string>, b: seq<string>, upload: string -> Option<Uploaded>)
    ensures ClassifyAll(a + b, upload) == ClassifyAll(a, upload) + ClassifyAll(b, upload)
  {
    if a == [] {
      assert a + b == b;
    } else {
      assert (a + b)[0] == a[0];
      assert (a + b)[1..] == a[1..] + b;
      ClassifyAllAppend(a[1..], b, upload);
    }
  }

  lemma SingleDropped(src: string, upload: string -> Option<Uploaded>)
    requires Classify(src, upload).None?
    ensures ClassifyAll([src], upload) == []
  {
    assert [src][0] == src && [src][1..] == [];
  }

  lemma DroppedAddress(a: seq<string>, src: string, b: seq<string>, upload: string -> Option<Uploaded>)
    requires Classify(src, upload).None?
    ensures ClassifyAll(a + [src] + b, upload) == ClassifyAll(a, upload) + ClassifyAll(b, upload)
  {
    ClassifyAllAppend(a + [src], b, upload);
    ClassifyAllAppend(a, [src], upload);
    SingleDropped(src, upload);
  }

  // ----- releasing stored images -----

  /** The public ids `cleanupImages` passes to the media host's destroy call,
      in order: one per image whose public id is non-empty. */
  function DestroyCalls(images: seq<ImageRef>): (ids: seq<string>)
    ensures |ids| <= |images|
    ensures forall k :: 0 <= k < |ids| ==> ids[k] != []
    ensures (forall k :: 0 <= k < |images| ==> images[k].publicId != []) ==>
      |ids| == |images| && forall k :: 0 <= k < |ids| ==> ids[k] == images[k].publicId
    ensures |images| == 1 ==> ids == if images[0].publicId != [] then [images[0].publicId] else []
  {
    if images == [] then []
    else if images[0].publicId != [] then [images[0].publicId] + DestroyCalls(images[1..])
    else DestroyCalls(images[1..])
  }

  /** Destroy is called with the public id of each image that has one, in
      order, and for no other image. */
  lemma DestroyCallsAreKeptIds(images: seq<ImageRef>)
    ensures var kept := Filter(images, HasPublicId);
      |DestroyCalls(images)| == |kept| &&
      forall k :: 0 <= k < |kept| ==> DestroyCalls(images)[k] == kept[k].publicId
  {
    DestroyCallsSkipUnnamed(images);
  }

  /** Images without a public id add no destroy call. */
  lemma {:induction false} DestroyCallsSkipUnnamed(images: seq<ImageRef>)
    ensures DestroyCalls(images) == DestroyCalls(Filter(images, HasPublicId))
  {
    if images != [] {
      DestroyCallsSkipUnnamed(images[1..]);
      if HasPublicId(images[0]) {
        assert Filter(images, HasPublicId)[1..] == Filter(images[1..], HasPublicId);
      }
    }
  }

  /** Whether an image has a public id (a non-empty one, as `if
      (image.publicId)` tests). */
  predicate HasPublicId(image: ImageRef)
  {
    image.publicId != []
  }

  /** The destroy calls of two lists of images are those of the first, then
      those of the second. */
  lemma {:induction false} DestroyCallsAppend(a: seq<ImageRef>, b: seq<ImageRef>)
    ensures DestroyCalls(a + b) == DestroyCalls(a) + DestroyCalls(b)
  {
    if a == [] {
      assert a + b == b;
    } else {
      assert (a + b)[0] == a[0];
      assert (a + b)[1..] == a[1..] + b;
      DestroyCallsAppend(a[1..], b);
    }
  }

  /** `cleanupImages(images)`: an omitted or empty list does nothing; otherwise
      destroy is called for each image with a public id, in order, and a
      failing call does not stop the loop (its outcome is ignored). Returns the
      ids passed to destroy. */
  method CleanupImages(images: Option<seq<ImageRef>>) returns (destroyed: seq<string>)
    ensures images.None? || images.value == [] ==> destroyed == []
    ensures images.Some? ==> destroyed == DestroyCalls(images.value)
    ensures images.Some? ==> var kept := Filter(images.value, HasPublicId);
      |destroyed| == |kept| && forall k :: 0 <= k < |kept| ==> destroyed[k] == kept[k].publicId
  {
    destroyed := [];
    if images.Some? {
      DestroyCallsAreKeptIds(images.value);
    }
    if images.None? || images.value == [] {
      return;
    }
    var list := images.value;
    for i := 0 to |list|
      invariant destroyed + DestroyCalls(list[i..]) == DestroyCalls(list)
    {
      assert list[i..][1..] == list[i + 1..];
      if list[i].publicId != [] {
        destroyed := destroyed + [list[i].publicId];
      }
    }
  }
}
