/**
 * The two UrlResolver variants, `get_picture_url` and `get_thumbnail_url`: from a
 * depiction and a GND identifier they derive the source URL and the destination
 * file name `image_<id>.<ext>` or `thumbnail_<id>.<ext>`.
 */
module Resolver {
  import opened PyStr
  import opened Json
  import opened Extractor

  const IMAGE_PREFIX := "image_"
  const THUMBNAIL_PREFIX := "thumbnail_"
  const THUMBNAIL_KEY := "thumbnail"
  const DOT := '.'
  const QUESTION_MARK := '?'

  /** The tuple `(url, file_name, gnd_identifier)` a resolver returns. */
  datatype UrlTarget = UrlTarget(url: string, fileName: string, gndId: string)

  /** The two content types, each with its own resolver (`get_url_function`). */
  datatype ContentType = Picture | Thumbnail

  /**
   * `prefix + gnd_identifier + DOT + file_ending`: the name starts with the prefix, and a
   * dot-free ending is exactly what follows the name's last `.`.
   */
  function FileName(prefix: string, gndId: string, ext: string): (name: string)
    ensures |prefix| <= |name| && name[..|prefix|] == prefix
    ensures DOT !in ext ==> IsLastSplit(name, DOT, prefix + gndId, ext)
  {
    prefix + gndId + [DOT] + ext
  }

  function Prefix(ct: ContentType): string {
    match ct
    case Picture => IMAGE_PREFIX
    case Thumbnail => THUMBNAIL_PREFIX
  }

  /**
   * A thumbnail URL cut as the code cuts it: `head` before its last `.`, then in the
   * rest, `ext` before its last `?` and `query` after it; both cuts past index 0.
   */
  ghost predicate IsThumbnailSplit(url: string, head: string, ext: string, query: string) {
    && |head| > 0
    && |ext| > 0
    && IsLastSplit(url, DOT, head, ext + [QUESTION_MARK] + query)
    && QUESTION_MARK !in query
  }

  /**
   * `get_picture_url`: the URL is the depiction's `@id`; the extension is the text after
   * its last `.`, which must lie past index 0.
   */
  function GetPictureUrl(depiction: Json, gndId: string): (r: Outcome<UrlTarget>)
    ensures r.Found? ==> depiction.JObject? && ID_KEY in depiction.fields
    ensures r.Found? ==> depiction.fields[ID_KEY] == JString(r.value.url) && r.value.gndId == gndId
    ensures r.Found? ==>
      exists head, ext :: |head| > 0 && IsLastSplit(r.value.url, DOT, head, ext)
                          && r.value.fileName == FileName(IMAGE_PREFIX, gndId, ext)
  {
    match Lookup(depiction, ID_KEY)
    case Skip => Skip
    case Raise(e) => Raise(e)
    case Found(urlValue) =>
      match urlValue
      case JString(url) =>
        var k := RFind(url, DOT);
        if k > 0 then
          RFindSplits(url, DOT);
          Found(UrlTarget(url, FileName(IMAGE_PREFIX, gndId, url[k + 1..]), gndId))
        else Skip
      case _ => Raise(AttributeError)
  }

  /**
   * `get_thumbnail_url`: the URL is `depiction["thumbnail"]["@id"]`; the extension is the
   * text after its last `.`, cut before the last `?` in that text. A URL without such a
   * `?` past index 0 of that text is skipped.
   */
  function GetThumbnailUrl(depiction: Json, gndId: string): (r: Outcome<UrlTarget>)
    ensures r.Found? ==> depiction.JObject? && THUMBNAIL_KEY in depiction.fields
    ensures r.Found? ==>
      var thumbnail := depiction.fields[THUMBNAIL_KEY];
      thumbnail.JObject? && ID_KEY in thumbnail.fields && thumbnail.fields[ID_KEY] == JString(r.value.url)
    ensures r.Found? ==> r.value.gndId == gndId
  {
    match Lookup(depiction, THUMBNAIL_KEY)
    case Skip => Skip
    case Raise(e) => Raise(e)
    case Found(thumbnail) =>
      match Lookup(thumbnail, ID_KEY)
      case Skip => Skip
      case Raise(e) => Raise(e)
      case Found(urlValue) =>
        match urlValue
        case JString(url) =>
          var k := RFind(url, DOT);
          if k > 0 then
            var lastPart := url[k + 1..];
            var q := RFind(lastPart, QUESTION_MARK);
            if q > 0 then
              Found(UrlTarget(url, FileName(THUMBNAIL_PREFIX, gndId, lastPart[..q]), gndId))
            else Skip
          else Skip
        case _ => Raise(AttributeError)
  }

  /** Where the code cuts a thumbnail URL, the pieces form a thumbnail split. */
  lemma ThumbnailCutsSplit(url: string)
    requires RFind(url, DOT) > 0
    requires RFind(url[RFind(url, DOT) + 1..], QUESTION_MARK) > 0
    ensures
      var lastPart := url[RFind(url, DOT) + 1..];
      var q := RFind(lastPart, QUESTION_MARK);
      IsThumbnailSplit(url, url[..RFind(url, DOT)], lastPart[..q], lastPart[q + 1..])
  {
    var k := RFind(url, DOT);
    var lastPart := url[k + 1..];
    var q := RFind(lastPart, QUESTION_MARK);
    RFindSplits(url, DOT);
    RFindSplits(lastPart, QUESTION_MARK);
    assert lastPart == lastPart[..q] + [QUESTION_MARK] + lastPart[q + 1..];
  }

  /** The thumbnail file name is `thumbnail_<id>.<ext>` for the extension of a thumbnail split of the URL. */
  lemma ThumbnailFileNameShape(depiction: Json, gndId: string)
    requires GetThumbnailUrl(depiction, gndId).Found?
    ensures var t := GetThumbnailUrl(depiction, gndId).value;
      exists head, ext, query :: IsThumbnailSplit(t.url, head, ext, query)
                                 && t.fileName == FileName(THUMBNAIL_PREFIX, gndId, ext)
  {
    var t := GetThumbnailUrl(depiction, gndId).value;
    var url := t.url;
    var k := RFind(url, DOT);
    var lastPart := url[k + 1..];
    var q := RFind(lastPart, QUESTION_MARK);
    assert k > 0 && q > 0 && t.fileName == FileName(THUMBNAIL_PREFIX, gndId, lastPart[..q]);
    ThumbnailCutsSplit(url);
  }

  /**
   * `get_url_function` as `do_harvesting` receives it: the content type picks the
   * resolver; only a dict depiction resolves, and the target keeps the tuple's identifier.
   */
  function Resolve(ct: ContentType, d: DepictionTuple): (r: Outcome<UrlTarget>)
    ensures r.Found? ==> r.value.gndId == d.gndId && d.depiction.JObject?
  {
    match ct
    case Picture => GetPictureUrl(d.depiction, d.gndId)
    case Thumbnail => GetThumbnailUrl(d.depiction, d.gndId)
  }

  /**
   * For a depiction that is a JSON object, `get_picture_url` raises exactly when `@id` is
   * not a string, and yields a target exactly when `@id` is a string with a `.` past
   * index 0; it skips otherwise.
   */
  lemma PictureUrlOutcome(fields: map<string, Json>, gndId: string)
    ensures var r := GetPictureUrl(JObject(fields), gndId);
      && (r.Raise? <==> ID_KEY in fields && !fields[ID_KEY].JString?)
      && (r.Raise? ==> r.error == AttributeError)
      && (r.Found? <==> ID_KEY in fields && fields[ID_KEY].JString? && OccursAfterStart(fields[ID_KEY].str, DOT))
  {
    if ID_KEY in fields && fields[ID_KEY].JString? {
      RFindPositive(fields[ID_KEY].str, DOT);
    }
  }

  /**
   * `get_thumbnail_url` yields a target exactly when `thumbnail` is an object whose `@id`
   * is a string that splits as a thumbnail URL.
   */
  lemma ThumbnailUrlFoundIff(fields: map<string, Json>, gndId: string)
    ensures GetThumbnailUrl(JObject(fields), gndId).Found? <==>
      && THUMBNAIL_KEY in fields && fields[THUMBNAIL_KEY].JObject?
      && ID_KEY in fields[THUMBNAIL_KEY].fields
      && fields[THUMBNAIL_KEY].fields[ID_KEY].JString?
      && exists head, ext, query :: IsThumbnailSplit(fields[THUMBNAIL_KEY].fields[ID_KEY].str, head, ext, query)
  {
    if GetThumbnailUrl(JObject(fields), gndId).Found? {
      ThumbnailFileNameShape(JObject(fields), gndId);
    }
    if && THUMBNAIL_KEY in fields && fields[THUMBNAIL_KEY].JObject?
              && ID_KEY in fields[THUMBNAIL_KEY].fields
              && fields[THUMBNAIL_KEY].fields[ID_KEY].JString?
    {
      var url := fields[THUMBNAIL_KEY].fields[ID_KEY].str;
      if head, ext, query :| IsThumbnailSplit(url, head, ext, query) {
        ThumbnailSplitFound(url, head, ext, query);
      }
    }
  }

  /**
   * The skip cases of `get_thumbnail_url`: no `thumbnail` field, a `thumbnail` object
   * without `@id`, or a string `@id` that does not split as a thumbnail URL.
   */
  lemma ThumbnailUrlSkips(fields: map<string, Json>, gndId: string)
    ensures THUMBNAIL_KEY !in fields ==> GetThumbnailUrl(JObject(fields), gndId).Skip?
    ensures THUMBNAIL_KEY in fields && fields[THUMBNAIL_KEY].JObject? && ID_KEY !in fields[THUMBNAIL_KEY].fields ==>
      GetThumbnailUrl(JObject(fields), gndId).Skip?
    ensures && THUMBNAIL_KEY in fields && fields[THUMBNAIL_KEY].JObject?
            && ID_KEY in fields[THUMBNAIL_KEY].fields
            && fields[THUMBNAIL_KEY].fields[ID_KEY].JString?
            && (forall head, ext, query :: !IsThumbnailSplit(fields[THUMBNAIL_KEY].fields[ID_KEY].str, head, ext, query))
            ==> GetThumbnailUrl(JObject(fields), gndId).Skip?
  {
    ThumbnailUrlFoundIff(fields, gndId);
  }

  /**
   * The raise cases of `get_thumbnail_url` for a dict depiction: a dict `thumbnail` raises
   * (AttributeError, no `.rfind`) exactly when its `@id` is present but not a string, and
   * a `thumbnail` that is null, a bool or a number raises a TypeError at the `in` test.
   */
  lemma ThumbnailUrlOutcome(fields: map<string, Json>, gndId: string)
    ensures THUMBNAIL_KEY in fields && fields[THUMBNAIL_KEY].JObject? ==>
      var r := GetThumbnailUrl(JObject(fields), gndId);
      var tf := fields[THUMBNAIL_KEY].fields;
      && (r.Raise? <==> ID_KEY in tf && !tf[ID_KEY].JString?)
      && (r.Raise? ==> r.error == AttributeError)
    ensures THUMBNAIL_KEY in fields
            && (fields[THUMBNAIL_KEY].JNull? || fields[THUMBNAIL_KEY].JBool? || fields[THUMBNAIL_KEY].JNumber?)
            ==> GetThumbnailUrl(JObject(fields), gndId) == Raise(TypeError)
  {
  }

  /** A thumbnail URL that splits as `head . ext ? query` is cut exactly there by the code. */
  lemma ThumbnailSplitFound(url: string, head: string, ext: string, query: string)
    requires IsThumbnailSplit(url, head, ext, query)
    ensures RFind(url, DOT) == |head|
    ensures url[|head| + 1..] == ext + [QUESTION_MARK] + query
    ensures RFind(url[|head| + 1..], QUESTION_MARK) == |ext|
  {
    RFindOfLastSplit(url, DOT, head, ext + [QUESTION_MARK] + query);
    var lastPart := url[|head| + 1..];
    assert lastPart == ext + [QUESTION_MARK] + query;
    RFindOfLastSplit(lastPart, QUESTION_MARK, ext, query);
  }

  /** Neither resolver ever produces an extension containing a `.`. */
  lemma ResolvedNameShape(ct: ContentType, d: DepictionTuple)
    requires Resolve(ct, d).Found?
    ensures exists ext :: DOT !in ext && Resolve(ct, d).value.fileName == FileName(Prefix(ct), d.gndId, ext)
  {
    var t := Resolve(ct, d).value;
    match ct
    case Picture =>
      var head, ext :| |head| > 0 && IsLastSplit(t.url, DOT, head, ext) && t.fileName == FileName(IMAGE_PREFIX, d.gndId, ext);
      assert DOT !in ext;
    case Thumbnail =>
      ThumbnailFileNameShape(d.depiction, d.gndId);
      var head, ext, query :| IsThumbnailSplit(t.url, head, ext, query) && t.fileName == FileName(THUMBNAIL_PREFIX, d.gndId, ext);
      assert DOT !in ext + [QUESTION_MARK] + query;
      assert ext == (ext + [QUESTION_MARK] + query)[..|ext|];
      assert DOT !in ext;
  }

  /** With a dot-free extension, `prefix + id + "." + ext` determines both `id` and `ext`. */
  lemma FileNameInjective(prefix: string, id1: string, ext1: string, id2: string, ext2: string)
    requires DOT !in ext1 && DOT !in ext2
    requires FileName(prefix, id1, ext1) == FileName(prefix, id2, ext2)
    ensures id1 == id2 && ext1 == ext2
  {
    var s := FileName(prefix, id1, ext1);
    assert IsLastSplit(s, DOT, prefix + id1, ext1);
    assert IsLastSplit(s, DOT, prefix + id2, ext2);
    LastSplitUnique(s, DOT, prefix + id1, ext1, prefix + id2, ext2);
    assert id1 == (prefix + id1)[|prefix|..];
    assert id2 == (prefix + id2)[|prefix|..];
  }

  /** An image file name never equals a thumbnail file name. */
  lemma PrefixesNeverCollide(id1: string, ext1: string, id2: string, ext2: string)
    ensures FileName(IMAGE_PREFIX, id1, ext1) != FileName(THUMBNAIL_PREFIX, id2, ext2)
  {
    assert FileName(IMAGE_PREFIX, id1, ext1)[0] == 'i';
    assert FileName(THUMBNAIL_PREFIX, id2, ext2)[0] == 't';
  }

  /**
   * Within one content type two resolved targets share a file name only when they
   * share the GND identifier; across content types they never do.
   */
  lemma ResolvedNamesDistinct(ct1: ContentType, d1: DepictionTuple, ct2: ContentType, d2: DepictionTuple)
    requires Resolve(ct1, d1).Found? && Resolve(ct2, d2).Found?
    requires Resolve(ct1, d1).value.fileName == Resolve(ct2, d2).value.fileName
    ensures ct1 == ct2 && d1.gndId == d2.gndId
  {
    ResolvedNameShape(ct1, d1);
    ResolvedNameShape(ct2, d2);
    var ext1 :| DOT !in ext1 && Resolve(ct1, d1).value.fileName == FileName(Prefix(ct1), d1.gndId, ext1);
    var ext2 :| DOT !in ext2 && Resolve(ct2, d2).value.fileName == FileName(Prefix(ct2), d2.gndId, ext2);
    if ct1 != ct2 {
      if ct1 == Picture {
        PrefixesNeverCollide(d1.gndId, ext1, d2.gndId, ext2);
      } else {
        PrefixesNeverCollide(d2.gndId, ext2, d1.gndId, ext1);
      }
    } else {
      FileNameInjective(Prefix(ct1), d1.gndId, ext1, d2.gndId, ext2);
    }
  }

  /** Example: `.../thumb.jpg?size=100` gives the extension `jpg`. */
  lemma ThumbnailQueryExample(gndId: string)
    ensures
      var url := "http://host/path/thumb.jpg?size=100";
      var depiction := JObject(map[THUMBNAIL_KEY := JObject(map[ID_KEY := JString(url)])]);
      GetThumbnailUrl(depiction, gndId) == Found(UrlTarget(url, "thumbnail_" + gndId + ".jpg", gndId))
  {
    var url := "http://host/path/thumb.jpg?size=100";
    assert IsThumbnailSplit(url, "http://host/path/thumb", "jpg", "size=100");
    ThumbnailSplitFound(url, "http://host/path/thumb", "jpg", "size=100");
    assert url[23..][..3] == "jpg";
    assert FileName(THUMBNAIL_PREFIX, gndId, "jpg") == "thumbnail_" + gndId + ".jpg";
  }

  /** Example: `.../thumb.jpg`, with no query string, is skipped. */
  lemma ThumbnailWithoutQueryExample(gndId: string)
    ensures
      var url := "http://host/path/thumb.jpg";
      var depiction := JObject(map[THUMBNAIL_KEY := JObject(map[ID_KEY := JString(url)])]);
      GetThumbnailUrl(depiction, gndId) == Skip
  {
    var url := "http://host/path/thumb.jpg";
    var thumbnail := JObject(map[ID_KEY := JString(url)]);
    assert Lookup(JObject(map[THUMBNAIL_KEY := thumbnail]), THUMBNAIL_KEY) == Found(thumbnail);
    assert Lookup(thumbnail, ID_KEY) == Found(JString(url));
    assert IsLastSplit(url, DOT, "http://host/path/thumb", "jpg");
    RFindOfLastSplit(url, DOT, "http://host/path/thumb", "jpg");
    assert url[22 + 1..] == "jpg";
    assert RFind("jpg", QUESTION_MARK) == -1;
  }
}
