/**
 * A sequential abstraction of one harvesting run (`run` with `do_harvesting`,
 * `retrieve_content`, `do_request` and `write_content_to_file`): the sheets are
 * extracted in order, and every extracted tuple goes through the picture pipeline and
 * through the thumbnail pipeline, each resolving, fetching and writing on its own.
 * HTTP is the parameter `fetch`; the destination directory is a map from path to bytes.
 */
module Pipeline {
  import opened PyStr
  import opened Json
  import opened Extractor
  import opened Resolver

  newtype byte = b: int | 0 <= b < 256
  type Bytes = seq<byte>

  const OK_STATUS := 200

  /** One input line as `json.loads` leaves it: a decoded value, or a decoding failure. */
  datatype Line = Decoded(record: Json) | Malformed

  /** What `requests.get` gives back: a response, or an exception from the transport. */
  datatype Response = Response(status: int, body: Bytes) | TransportFailure

  /** The tuple `(response_body, absolute_file_path, gnd_identifier)` handed to the writer. */
  datatype Write = Write(path: string, body: Bytes, gndId: string)

  /** The extractor's output stream: the tuples emitted, then the error that ended it, if any. */
  datatype Extraction = Extraction(entities: seq<DepictionTuple>, error: Option<PyError>)

  /**
   * One content pipeline's run: the directory after its writes, the identifiers it
   * reported as processed (in order), and the error that ended its subscription, if any.
   */
  datatype Run = Run(files: map<string, Bytes>, processed: seq<string>, error: Option<PyError>)

  /** Both pipelines of one run and the destination directory they leave behind. */
  datatype Harvesting = Harvesting(pictures: Run, thumbnails: Run, directory: map<string, Bytes>)

  predicate IsRelative(name: string) {
    |name| == 0 || name[0] != '/'
  }

  /** `os.path.join(directory, name)` with POSIX separators. */
  function JoinPath(dir: string, name: string): (path: string)
    ensures !IsRelative(name) ==> path == name
    ensures IsRelative(name) ==> |dir| + |name| <= |path| && path[..|dir|] == dir && path[|path| - |name|..] == name
  {
    if !IsRelative(name) then name
    else if |dir| == 0 || dir[|dir| - 1] == '/' then dir + name
    else dir + "/" + name
  }

  /** Joining a fixed directory with relative names never merges two names. */
  lemma JoinPathInjective(dir: string, n1: string, n2: string)
    requires IsRelative(n1) && IsRelative(n2)
    requires JoinPath(dir, n1) == JoinPath(dir, n2)
    ensures n1 == n2
  {
    var base := if |dir| == 0 || dir[|dir| - 1] == '/' then dir else dir + "/";
    assert JoinPath(dir, n1) == base + n1;
    assert JoinPath(dir, n2) == base + n2;
    assert n1 == (base + n1)[|base|..];
    assert n2 == (base + n2)[|base|..];
  }

  /** `retrieve_content` with `do_request`: one GET; a status other than 200 drops the record. */
  function RetrieveContent(url: string, path: string, gndId: string, fetch: string -> Response): (r: Outcome<Write>)
    ensures r.Found? <==> fetch(url).Response? && fetch(url).status == OK_STATUS
    ensures r.Found? ==> r.value == Write(path, fetch(url).body, gndId)
    ensures r.Raise? <==> fetch(url).TransportFailure?
  {
    match fetch(url)
    case TransportFailure => Raise(RequestException)
    case Response(status, body) =>
      if status != OK_STATUS then Skip else Found(Write(path, body, gndId))
  }

  /**
   * One tuple through one content pipeline up to the write: resolve the URL and file
   * name, join the name onto the directory, fetch.
   */
  function Process(ct: ContentType, dir: string, fetch: string -> Response, d: DepictionTuple): (r: Outcome<Write>)
    ensures Resolve(ct, d).Skip? ==> r.Skip?
    ensures Resolve(ct, d).Raise? ==> r == Raise(Resolve(ct, d).error)
    ensures Resolve(ct, d).Found? ==>
      var target := Resolve(ct, d).value;
      && (r.Found? <==> fetch(target.url).Response? && fetch(target.url).status == OK_STATUS)
      && (r.Raise? <==> fetch(target.url).TransportFailure?)
    ensures r.Found? ==>
      var target := Resolve(ct, d).value;
      && Resolve(ct, d).Found?
      && fetch(target.url) == Response(OK_STATUS, r.value.body)
      && r.value.path == JoinPath(dir, target.fileName)
      && r.value.gndId == d.gndId
  {
    match Resolve(ct, d)
    case Skip => Skip
    case Raise(e) => Raise(e)
    case Found(target) => RetrieveContent(target.url, JoinPath(dir, target.fileName), target.gndId, fetch)
  }

  /** `write_content_to_file`: the file at the path now holds exactly the bytes; yields the identifier. */
  function WriteContentToFile(files: map<string, Bytes>, w: Write): (r: (map<string, Bytes>, string))
    ensures r.0.Keys == files.Keys + {w.path}
    ensures r.0[w.path] == w.body
    ensures forall p :: p in files && p != w.path ==> r.0[p] == files[p]
    ensures r.1 == w.gndId
  {
    (files[w.path := w.body], w.gndId)
  }

  /**
   * The number of tuples that reach this pipeline's subscriber before the first one on
   * which it raises (all of them when none does).
   */
  function FaultFreePrefix(ct: ContentType, dir: string, fetch: string -> Response,
                           es: seq<DepictionTuple>): (k: nat)
    ensures k <= |es|
    ensures forall i :: 0 <= i < k ==> !Process(ct, dir, fetch, es[i]).Raise?
    ensures k < |es| ==> Process(ct, dir, fetch, es[k]).Raise?
    decreases |es|
  {
    if es == [] || Process(ct, dir, fetch, es[0]).Raise? then 0
    else
      var k := FaultFreePrefix(ct, dir, fetch, es[1..]);
      assert forall i :: 1 <= i <= k ==> es[1..][i - 1] == es[i];
      1 + k
  }

  /** The identifiers of the tuples this pipeline fetches with status 200, in arrival order. */
  function FetchedIds(ct: ContentType, dir: string, fetch: string -> Response,
                      es: seq<DepictionTuple>): seq<string>
    decreases |es|
  {
    if es == [] then []
    else
      var head := if Process(ct, dir, fetch, es[0]).Found? then [es[0].gndId] else [];
      head + FetchedIds(ct, dir, fetch, es[1..])
  }

  /** Past a first tuple that does not raise, the fault-free prefix and its identifiers continue in the rest. */
  lemma FaultFreeStep(ct: ContentType, dir: string, fetch: string -> Response, es: seq<DepictionTuple>)
    requires es != [] && !Process(ct, dir, fetch, es[0]).Raise?
    ensures var k := FaultFreePrefix(ct, dir, fetch, es);
      && k == 1 + FaultFreePrefix(ct, dir, fetch, es[1..])
      && FetchedIds(ct, dir, fetch, es[..k]) ==
         (if Process(ct, dir, fetch, es[0]).Found? then [es[0].gndId] else [])
         + FetchedIds(ct, dir, fetch, es[1..][..k - 1])
  {
    var k := FaultFreePrefix(ct, dir, fetch, es);
    assert es[..k][0] == es[0];
    assert es[..k][1..] == es[1..][..k - 1];
  }

  /**
   * `do_harvesting` for one content type over the tuples in arrival order: a skipped
   * tuple writes nothing, a fetched one is written, and the first exception ends the
   * subscription; in the arrival-order run, an error from upstream ends it once the
   * tuples are used up. The identifiers reported processed are exactly those fetched
   * before the first exception, in order.
   */
  function Harvest(ct: ContentType, dir: string, fetch: string -> Response, es: seq<DepictionTuple>,
                   upstream: Option<PyError>, files: map<string, Bytes>): (r: Run)
    ensures files.Keys <= r.files.Keys
    ensures var k := FaultFreePrefix(ct, dir, fetch, es);
      && r.processed == FetchedIds(ct, dir, fetch, es[..k])
      && r.error == (if k < |es| then Some(Process(ct, dir, fetch, es[k]).error) else upstream)
    ensures (forall i :: 0 <= i < |es| ==> Process(ct, dir, fetch, es[i]).Found?) ==>
      |r.processed| == |es| && r.error == upstream
    decreases |es|
  {
    if es == [] then Run(files, [], upstream)
    else
      match Process(ct, dir, fetch, es[0])
      case Raise(e) => Run(files, [], Some(e))
      case Skip =>
        FaultFreeStep(ct, dir, fetch, es);
        Harvest(ct, dir, fetch, es[1..], upstream, files)
      case Found(w) =>
        FaultFreeStep(ct, dir, fetch, es);
        var (written, gndId) := WriteContentToFile(files, w);
        var rest := Harvest(ct, dir, fetch, es[1..], upstream, written);
        Run(rest.files, [gndId] + rest.processed, rest.error)
  }

  /** The error a line ends the extraction with, if any. */
  function LineFault(line: Line): Option<PyError> {
    match line
    case Malformed => Some(JsonDecodeError)
    case Decoded(record) =>
      if GetDepictionJson(record).Raise? then Some(GetDepictionJson(record).error) else None
  }

  /** The number of lines before the first malformed line or raising sheet (all of them when none). */
  function FaultFreeLines(lines: seq<Line>): (k: nat)
    ensures k <= |lines|
    ensures forall i :: 0 <= i < k ==> LineFault(lines[i]).None?
    ensures k < |lines| ==> LineFault(lines[k]).Some?
    decreases |lines|
  {
    if lines == [] || LineFault(lines[0]).Some? then 0
    else 1 + FaultFreeLines(lines[1..])
  }

  /** The tuples `get_depiction_json` yields on the lines, in order; other lines yield nothing. */
  function YieldedTuples(lines: seq<Line>): seq<DepictionTuple>
    decreases |lines|
  {
    if lines == [] then []
    else
      var head := if lines[0].Decoded? && GetDepictionJson(lines[0].record).Found?
        then [GetDepictionJson(lines[0].record).value] else [];
      head + YieldedTuples(lines[1..])
  }

  /**
   * The extractor over the input lines: a tuple per sheet that yields one, nothing for a
   * skipped sheet, and a stop at the first malformed line or exception. The stream is
   * exactly the tuples of the lines before the first fault, in order, then that fault.
   */
  function ExtractAll(lines: seq<Line>): (r: Extraction)
    ensures |r.entities| <= |lines|
    ensures var k := FaultFreeLines(lines);
      && r.entities == YieldedTuples(lines[..k])
      && r.error == (if k < |lines| then LineFault(lines[k]) else None)
    decreases |lines|
  {
    if lines == [] then Extraction([], None)
    else
      var k := FaultFreeLines(lines);
      match lines[0]
      case Malformed => Extraction([], Some(JsonDecodeError))
      case Decoded(record) =>
        match GetDepictionJson(record)
        case Raise(e) => Extraction([], Some(e))
        case Skip =>
          assert lines[..k][1..] == lines[1..][..k - 1];
          ExtractAll(lines[1..])
        case Found(t) =>
          assert lines[..k][1..] == lines[1..][..k - 1];
          var rest := ExtractAll(lines[1..]);
          Extraction([t] + rest.entities, rest.error)
  }

  /**
   * `run`: the extracted stream is published to the picture and the thumbnail pipeline;
   * both write into the same directory, which may already hold files.
   */
  function Harvester(lines: seq<Line>, fetch: string -> Response, dir: string, existing: map<string, Bytes>): (h: Harvesting)
    ensures h.directory.Keys == existing.Keys + h.pictures.files.Keys + h.thumbnails.files.Keys
    ensures forall p :: p in existing && p !in h.pictures.files && p !in h.thumbnails.files ==>
      h.directory[p] == existing[p]
    ensures forall p :: p in h.thumbnails.files ==> h.directory[p] == h.thumbnails.files[p]
  {
    var extraction := ExtractAll(lines);
    var pictures := Harvest(Picture, dir, fetch, extraction.entities, extraction.error, map[]);
    var thumbnails := Harvest(Thumbnail, dir, fetch, extraction.entities, extraction.error, map[]);
    Harvesting(pictures, thumbnails, existing + pictures.files + thumbnails.files)
  }

  // ---------------------------------------------------------------------------------
  // Properties of a single record

  /** A resolved file name is relative, so joining it keeps it under the directory. */
  lemma ResolvedNameRelative(ct: ContentType, d: DepictionTuple)
    requires Resolve(ct, d).Found?
    ensures IsRelative(Resolve(ct, d).value.fileName)
  {
    ResolvedNameShape(ct, d);
    var ext :| DOT !in ext && Resolve(ct, d).value.fileName == FileName(Prefix(ct), d.gndId, ext);
    assert FileName(Prefix(ct), d.gndId, ext)[0] == Prefix(ct)[0];
  }

  /**
   * Two writes to the same path come from the same content type and the same GND
   * identifier: pictures and thumbnails never collide, nor do distinct identifiers.
   */
  lemma ProcessPathsDistinct(ct1: ContentType, ct2: ContentType, dir: string, fetch: string -> Response,
                             d1: DepictionTuple, d2: DepictionTuple)
    requires Process(ct1, dir, fetch, d1).Found? && Process(ct2, dir, fetch, d2).Found?
    requires Process(ct1, dir, fetch, d1).value.path == Process(ct2, dir, fetch, d2).value.path
    ensures ct1 == ct2 && d1.gndId == d2.gndId
  {
    ResolvedNameRelative(ct1, d1);
    ResolvedNameRelative(ct2, d2);
    JoinPathInjective(dir, Resolve(ct1, d1).value.fileName, Resolve(ct2, d2).value.fileName);
    ResolvedNamesDistinct(ct1, d1, ct2, d2);
  }

  // ---------------------------------------------------------------------------------
  // Properties of one content pipeline

  /** Some tuple of `es`, processed by this pipeline, writes exactly `body` to `p`. */
  ghost predicate WrittenBy(ct: ContentType, dir: string, fetch: string -> Response, es: seq<DepictionTuple>,
                            p: string, body: Bytes)
  {
    exists i :: 0 <= i < |es| && Process(ct, dir, fetch, es[i]) == Found(Write(p, body, es[i].gndId))
  }

  lemma WrittenByTail(ct: ContentType, dir: string, fetch: string -> Response, es: seq<DepictionTuple>,
                      p: string, body: Bytes)
    requires |es| > 0 && WrittenBy(ct, dir, fetch, es[1..], p, body)
    ensures WrittenBy(ct, dir, fetch, es, p, body)
  {
    var i :| 0 <= i < |es[1..]| && Process(ct, dir, fetch, es[1..][i]) == Found(Write(p, body, es[1..][i].gndId));
    assert es[1..][i] == es[i + 1];
  }

  /**
   * A pipeline only writes fetched content: every file it leaves is either untouched or
   * holds the body of a 200 response for a tuple that resolved to that very path.
   * A skipped tuple, or a fetch with another status, therefore writes nothing.
   */
  lemma {:induction false} HarvestOnlyWritesFetched(ct: ContentType, dir: string, fetch: string -> Response,
                                                    es: seq<DepictionTuple>, upstream: Option<PyError>,
                                                    files: map<string, Bytes>)
    ensures var r := Harvest(ct, dir, fetch, es, upstream, files);
      forall p :: p in r.files ==>
        (p in files && r.files[p] == files[p]) || WrittenBy(ct, dir, fetch, es, p, r.files[p])
    decreases |es|
  {
    var r := Harvest(ct, dir, fetch, es, upstream, files);
    if es != [] {
      match Process(ct, dir, fetch, es[0])
      case Raise(e) =>
      case Skip =>
        HarvestOnlyWritesFetched(ct, dir, fetch, es[1..], upstream, files);
        forall p | p in r.files && !(p in files && r.files[p] == files[p])
          ensures WrittenBy(ct, dir, fetch, es, p, r.files[p])
        {
          WrittenByTail(ct, dir, fetch, es, p, r.files[p]);
        }
      case Found(w) =>
        var written := files[w.path := w.body];
        HarvestOnlyWritesFetched(ct, dir, fetch, es[1..], upstream, written);
        forall p | p in r.files && !(p in files && r.files[p] == files[p])
          ensures WrittenBy(ct, dir, fetch, es, p, r.files[p])
        {
          if p in written && r.files[p] == written[p] {
            assert p == w.path;
            assert Process(ct, dir, fetch, es[0]) == Found(Write(p, r.files[p], es[0].gndId));
          } else {
            WrittenByTail(ct, dir, fetch, es, p, r.files[p]);
          }
        }
    }
  }

  /**
   * The first exception ends the pipeline: the directory and the processed identifiers
   * are those of the tuples before it, and the pipeline reports that exception.
   */
  lemma {:induction false} HarvestStopsAtFault(ct: ContentType, dir: string, fetch: string -> Response,
                                               es: seq<DepictionTuple>, upstream: Option<PyError>,
                                               files: map<string, Bytes>, k: nat)
    requires k < |es| && Process(ct, dir, fetch, es[k]).Raise?
    requires forall i :: 0 <= i < k ==> !Process(ct, dir, fetch, es[i]).Raise?
    ensures var r := Harvest(ct, dir, fetch, es, upstream, files);
      var before := Harvest(ct, dir, fetch, es[..k], upstream, files);
      && r.files == before.files
      && r.processed == before.processed
      && r.error == Some(Process(ct, dir, fetch, es[k]).error)
    decreases k
  {
    if k > 0 {
      assert es[..k][0] == es[0];
      assert es[..k][1..] == es[1..][..k - 1];
      forall i | 0 <= i < k - 1
        ensures !Process(ct, dir, fetch, es[1..][i]).Raise?
      {
        assert es[1..][i] == es[i + 1];
      }
      match Process(ct, dir, fetch, es[0])
      case Skip =>
        HarvestStopsAtFault(ct, dir, fetch, es[1..], upstream, files, k - 1);
      case Found(w) =>
        HarvestStopsAtFault(ct, dir, fetch, es[1..], upstream, files[w.path := w.body], k - 1);
    }
  }

  /** The GND identifiers of the tuples are pairwise distinct. */
  ghost predicate DistinctIds(es: seq<DepictionTuple>) {
    forall i, j :: 0 <= i < j < |es| ==> es[i].gndId != es[j].gndId
  }

  /** No tuple makes this pipeline raise. */
  ghost predicate NoFault(ct: ContentType, dir: string, fetch: string -> Response, es: seq<DepictionTuple>) {
    forall i :: 0 <= i < |es| ==> !Process(ct, dir, fetch, es[i]).Raise?
  }

  lemma TailKeepsHypotheses(ct: ContentType, dir: string, fetch: string -> Response, es: seq<DepictionTuple>)
    requires |es| > 0 && NoFault(ct, dir, fetch, es) && DistinctIds(es)
    ensures NoFault(ct, dir, fetch, es[1..]) && DistinctIds(es[1..])
  {
    forall i | 0 <= i < |es| - 1 ensures es[1..][i] == es[i + 1] { }
  }

  /**
   * With distinct identifiers and no exception, every successful fetch ends up in the
   * directory with exactly the fetched bytes, and its identifier is reported processed:
   * no later write of the same pipeline overwrites it.
   */
  lemma {:induction false} HarvestKeepsEverySuccess(ct: ContentType, dir: string, fetch: string -> Response,
                                                    es: seq<DepictionTuple>, upstream: Option<PyError>,
                                                    files: map<string, Bytes>, i: nat)
    requires NoFault(ct, dir, fetch, es) && DistinctIds(es)
    requires i < |es| && Process(ct, dir, fetch, es[i]).Found?
    ensures var r := Harvest(ct, dir, fetch, es, upstream, files);
      var w := Process(ct, dir, fetch, es[i]).value;
      && w.path in r.files && r.files[w.path] == w.body
      && es[i].gndId in r.processed
    decreases i
  {
    TailKeepsHypotheses(ct, dir, fetch, es);
    if i == 0 {
      HeadWriteSurvives(ct, dir, fetch, es, upstream, files);
    } else {
      assert es[1..][i - 1] == es[i];
      match Process(ct, dir, fetch, es[0])
      case Skip =>
        HarvestKeepsEverySuccess(ct, dir, fetch, es[1..], upstream, files, i - 1);
      case Found(w) =>
        HarvestKeepsEverySuccess(ct, dir, fetch, es[1..], upstream, files[w.path := w.body], i - 1);
    }
  }

  /** The first tuple's write is not overwritten by the tuples after it. */
  lemma HeadWriteSurvives(ct: ContentType, dir: string, fetch: string -> Response,
                          es: seq<DepictionTuple>, upstream: Option<PyError>, files: map<string, Bytes>)
    requires |es| > 0 && DistinctIds(es) && Process(ct, dir, fetch, es[0]).Found?
    ensures var r := Harvest(ct, dir, fetch, es, upstream, files);
      var w := Process(ct, dir, fetch, es[0]).value;
      && w.path in r.files && r.files[w.path] == w.body
      && es[0].gndId in r.processed
  {
    var w := Process(ct, dir, fetch, es[0]).value;
    var written := files[w.path := w.body];
    var rest := Harvest(ct, dir, fetch, es[1..], upstream, written);
    assert Harvest(ct, dir, fetch, es, upstream, files) == Run(rest.files, [w.gndId] + rest.processed, rest.error);
    HarvestOnlyWritesFetched(ct, dir, fetch, es[1..], upstream, written);
    if WrittenBy(ct, dir, fetch, es[1..], w.path, rest.files[w.path]) {
      var j :| 0 <= j < |es[1..]| && Process(ct, dir, fetch, es[1..][j]) ==
        Found(Write(w.path, rest.files[w.path], es[1..][j].gndId));
      assert es[1..][j] == es[j + 1];
      ProcessPathsDistinct(ct, ct, dir, fetch, es[0], es[j + 1]);
    }
  }

  /**
   * With distinct identifiers, no exception and no name already taken, the pipeline
   * adds exactly one new file per processed identifier.
   */
  lemma {:induction false} HarvestFileCount(ct: ContentType, dir: string, fetch: string -> Response,
                                            es: seq<DepictionTuple>, upstream: Option<PyError>,
                                            files: map<string, Bytes>)
    requires NoFault(ct, dir, fetch, es) && DistinctIds(es)
    requires forall i :: 0 <= i < |es| && Process(ct, dir, fetch, es[i]).Found? ==>
      Process(ct, dir, fetch, es[i]).value.path !in files
    ensures var r := Harvest(ct, dir, fetch, es, upstream, files);
      |r.files| == |files| + |r.processed|
    decreases |es|
  {
    if es != [] {
      TailKeepsHypotheses(ct, dir, fetch, es);
      match Process(ct, dir, fetch, es[0])
      case Skip =>
        forall i | 0 <= i < |es[1..]| && Process(ct, dir, fetch, es[1..][i]).Found?
          ensures Process(ct, dir, fetch, es[1..][i]).value.path !in files
        {
          assert es[1..][i] == es[i + 1];
        }
        HarvestFileCount(ct, dir, fetch, es[1..], upstream, files);
      case Found(w) =>
        var written := files[w.path := w.body];
        assert |written| == |files| + 1;
        forall i | 0 <= i < |es[1..]| && Process(ct, dir, fetch, es[1..][i]).Found?
          ensures Process(ct, dir, fetch, es[1..][i]).value.path !in written
        {
          assert es[1..][i] == es[i + 1];
          if Process(ct, dir, fetch, es[1..][i]).value.path == w.path {
            ProcessPathsDistinct(ct, ct, dir, fetch, es[0], es[i + 1]);
            assert false;
          }
        }
        HarvestFileCount(ct, dir, fetch, es[1..], upstream, written);
    }
  }

  /** The identifiers in `FetchedIds` are exactly those of the tuples fetched with status 200. */
  lemma {:induction false} FetchedIdsMembers(ct: ContentType, dir: string, fetch: string -> Response,
                                             es: seq<DepictionTuple>)
    ensures forall x :: x in FetchedIds(ct, dir, fetch, es) ==>
      exists i :: 0 <= i < |es| && Process(ct, dir, fetch, es[i]).Found? && es[i].gndId == x
    ensures forall i :: 0 <= i < |es| && Process(ct, dir, fetch, es[i]).Found? ==>
      es[i].gndId in FetchedIds(ct, dir, fetch, es)
    decreases |es|
  {
    if es != [] {
      var tail := FetchedIds(ct, dir, fetch, es[1..]);
      FetchedIdsMembers(ct, dir, fetch, es[1..]);
      forall x | x in FetchedIds(ct, dir, fetch, es)
        ensures exists i :: 0 <= i < |es| && Process(ct, dir, fetch, es[i]).Found? && es[i].gndId == x
      {
        if x in tail {
          var j :| 0 <= j < |es[1..]| && Process(ct, dir, fetch, es[1..][j]).Found? && es[1..][j].gndId == x;
          assert es[1..][j] == es[j + 1];
        } else {
          assert Process(ct, dir, fetch, es[0]).Found? && es[0].gndId == x;
        }
      }
      forall i | 0 < i < |es| && Process(ct, dir, fetch, es[i]).Found?
        ensures es[i].gndId in FetchedIds(ct, dir, fetch, es)
      {
        assert es[1..][i - 1] == es[i];
        assert es[i].gndId in tail;
      }
    }
  }

  /**
   * Every identifier a pipeline reports belongs to a tuple it fetched with status 200,
   * and every tuple fetched before the first exception is reported, whatever was skipped
   * before it.
   */
  lemma HarvestReportsEveryFetch(ct: ContentType, dir: string, fetch: string -> Response,
                                 es: seq<DepictionTuple>, upstream: Option<PyError>, files: map<string, Bytes>)
    ensures var r := Harvest(ct, dir, fetch, es, upstream, files);
      && (forall x :: x in r.processed ==>
            exists i :: 0 <= i < |es| && Process(ct, dir, fetch, es[i]).Found? && es[i].gndId == x)
      && (forall i :: 0 <= i < FaultFreePrefix(ct, dir, fetch, es) && Process(ct, dir, fetch, es[i]).Found? ==>
            es[i].gndId in r.processed)
  {
    var r := Harvest(ct, dir, fetch, es, upstream, files);
    var k := FaultFreePrefix(ct, dir, fetch, es);
    FetchedIdsMembers(ct, dir, fetch, es[..k]);
    forall x | x in r.processed
      ensures exists i :: 0 <= i < |es| && Process(ct, dir, fetch, es[i]).Found? && es[i].gndId == x
    {
      var i :| 0 <= i < k && Process(ct, dir, fetch, es[..k][i]).Found? && es[..k][i].gndId == x;
      assert es[..k][i] == es[i];
    }
    forall i | 0 <= i < k && Process(ct, dir, fetch, es[i]).Found?
      ensures es[i].gndId in r.processed
    {
      assert es[..k][i] == es[i];
    }
  }

  // ---------------------------------------------------------------------------------
  // Properties of the extractor stream

  /** Some line of `lines` is a sheet from which `get_depiction_json` yields `t`. */
  ghost predicate ExtractedFrom(lines: seq<Line>, t: DepictionTuple) {
    exists i :: 0 <= i < |lines| && lines[i].Decoded? && GetDepictionJson(lines[i].record) == Found(t)
  }

  /**
   * Every tuple the pipelines receive comes from a sheet that has an `@id` with a `/`
   * and a `depiction`: sheets lacking either produce nothing downstream.
   */
  lemma {:induction false} ExtractedFromSheets(lines: seq<Line>)
    ensures forall t :: t in ExtractAll(lines).entities ==> ExtractedFrom(lines, t)
    decreases |lines|
  {
    if lines != [] && lines[0].Decoded? {
      var r := ExtractAll(lines);
      ExtractedFromSheets(lines[1..]);
      forall t | t in r.entities ensures ExtractedFrom(lines, t) {
        if GetDepictionJson(lines[0].record) == Found(t) {
          assert lines[0].Decoded?;
        } else {
          assert t in ExtractAll(lines[1..]).entities;
          var i :| 0 <= i < |lines[1..]| && lines[1..][i].Decoded? &&
            GetDepictionJson(lines[1..][i].record) == Found(t);
          assert lines[1..][i] == lines[i + 1];
        }
      }
    }
  }

  /** The tuples in `YieldedTuples` are exactly those some line's sheet yields. */
  lemma {:induction false} YieldedTuplesMembers(lines: seq<Line>)
    ensures forall t :: t in YieldedTuples(lines) <==> ExtractedFrom(lines, t)
    decreases |lines|
  {
    if lines != [] {
      var tail := YieldedTuples(lines[1..]);
      YieldedTuplesMembers(lines[1..]);
      forall t | t in YieldedTuples(lines) ensures ExtractedFrom(lines, t) {
        if t in tail {
          var j :| 0 <= j < |lines[1..]| && lines[1..][j].Decoded? && GetDepictionJson(lines[1..][j].record) == Found(t);
          assert lines[1..][j] == lines[j + 1];
        } else {
          assert lines[0].Decoded? && GetDepictionJson(lines[0].record) == Found(t);
        }
      }
      forall t | ExtractedFrom(lines, t) ensures t in YieldedTuples(lines) {
        var i :| 0 <= i < |lines| && lines[i].Decoded? && GetDepictionJson(lines[i].record) == Found(t);
        if i > 0 {
          assert lines[1..][i - 1] == lines[i];
          assert ExtractedFrom(lines[1..], t);
        }
      }
    }
  }

  /**
   * A sheet that yields a tuple reaches the pipelines, whatever lines were skipped before
   * it, as long as no earlier line aborts the stream.
   */
  lemma ExtractAllComplete(lines: seq<Line>)
    ensures forall i :: 0 <= i < FaultFreeLines(lines) && lines[i].Decoded? && GetDepictionJson(lines[i].record).Found? ==>
      GetDepictionJson(lines[i].record).value in ExtractAll(lines).entities
  {
    var k := FaultFreeLines(lines);
    YieldedTuplesMembers(lines[..k]);
    forall i | 0 <= i < k && lines[i].Decoded? && GetDepictionJson(lines[i].record).Found?
      ensures GetDepictionJson(lines[i].record).value in ExtractAll(lines).entities
    {
      assert lines[..k][i] == lines[i];
      assert ExtractedFrom(lines[..k], GetDepictionJson(lines[i].record).value);
    }
  }

  /**
   * A malformed line, or a sheet on which the extractor raises, aborts the stream: the
   * tuples are those of the lines before it and the stream ends with its error.
   */
  lemma {:induction false} ExtractStopsAtFault(lines: seq<Line>, k: nat)
    requires k < |lines| && LineFault(lines[k]).Some?
    requires forall i :: 0 <= i < k ==> LineFault(lines[i]).None?
    ensures ExtractAll(lines) == Extraction(ExtractAll(lines[..k]).entities, LineFault(lines[k]))
    ensures ExtractAll(lines[..k]).error == None
    decreases k
  {
    if k > 0 {
      assert lines[..k][0] == lines[0];
      assert lines[..k][1..] == lines[1..][..k - 1];
      forall i | 0 <= i < k - 1 ensures LineFault(lines[1..][i]).None? {
        assert lines[1..][i] == lines[i + 1];
      }
      ExtractStopsAtFault(lines[1..], k - 1);
    }
  }

  /** When every line is a sheet that yields a tuple, the stream is exactly those tuples. */
  lemma {:induction false} ExtractAllValid(lines: seq<Line>)
    requires forall i :: 0 <= i < |lines| ==> lines[i].Decoded? && GetDepictionJson(lines[i].record).Found?
    ensures |ExtractAll(lines).entities| == |lines| && ExtractAll(lines).error == None
    ensures forall i :: 0 <= i < |lines| ==> ExtractAll(lines).entities[i] == GetDepictionJson(lines[i].record).value
    decreases |lines|
  {
    if lines != [] {
      forall i | 0 <= i < |lines| - 1
        ensures lines[1..][i].Decoded? && GetDepictionJson(lines[1..][i].record).Found?
      {
        assert lines[1..][i] == lines[i + 1];
      }
      ExtractAllValid(lines[1..]);
      forall i | 0 < i < |lines|
        ensures ExtractAll(lines).entities[i] == GetDepictionJson(lines[i].record).value
      {
        assert lines[1..][i - 1] == lines[i];
      }
    }
  }

  // ---------------------------------------------------------------------------------
  // Properties of a whole run

  /**
   * The two pipelines never write the same path, so the directory does not depend on
   * the order in which their writes land.
   */
  lemma PipelinesWriteDisjointFiles(lines: seq<Line>, fetch: string -> Response, dir: string,
                                    existing: map<string, Bytes>)
    ensures var h := Harvester(lines, fetch, dir, existing);
      && h.pictures.files.Keys !! h.thumbnails.files.Keys
      && h.directory == existing + h.thumbnails.files + h.pictures.files
  {
    var h := Harvester(lines, fetch, dir, existing);
    var es := ExtractAll(lines).entities;
    var upstream := ExtractAll(lines).error;
    forall p | p in h.pictures.files && p in h.thumbnails.files ensures false {
      var i := WriterOf(Picture, dir, fetch, es, upstream, p);
      var j := WriterOf(Thumbnail, dir, fetch, es, upstream, p);
      ProcessPathsDistinct(Picture, Thumbnail, dir, fetch, es[i], es[j]);
    }
    DisjointUnionCommutes(existing, h.pictures.files, h.thumbnails.files);
  }

  /** The index of the tuple that wrote a file of a pipeline started on an empty directory. */
  lemma WriterOf(ct: ContentType, dir: string, fetch: string -> Response, es: seq<DepictionTuple>,
                 upstream: Option<PyError>, p: string) returns (i: nat)
    requires p in Harvest(ct, dir, fetch, es, upstream, map[]).files
    ensures i < |es| && Process(ct, dir, fetch, es[i]).Found? && Process(ct, dir, fetch, es[i]).value.path == p
    ensures Process(ct, dir, fetch, es[i]).value.body == Harvest(ct, dir, fetch, es, upstream, map[]).files[p]
  {
    HarvestOnlyWritesFetched(ct, dir, fetch, es, upstream, map[]);
    i :| 0 <= i < |es| && Process(ct, dir, fetch, es[i]) ==
      Found(Write(p, Harvest(ct, dir, fetch, es, upstream, map[]).files[p], es[i].gndId));
  }

  lemma DisjointUnionCommutes<K, V>(base: map<K, V>, a: map<K, V>, b: map<K, V>)
    requires a.Keys !! b.Keys
    ensures base + a + b == base + b + a
  {
  }

  /**
   * Every file a run adds comes from a sheet with an identifier and a depiction, whose
   * URL resolved for some content type and was fetched with status 200: the file holds
   * exactly that response's bytes.
   */
  lemma EveryFileTracesToASheet(lines: seq<Line>, fetch: string -> Response, dir: string,
                                existing: map<string, Bytes>, p: string)
    requires p in Harvester(lines, fetch, dir, existing).directory && p !in existing
    ensures exists ct, t ::
      && ExtractedFrom(lines, t) && Resolve(ct, t).Found?
      && fetch(Resolve(ct, t).value.url) == Response(OK_STATUS, Harvester(lines, fetch, dir, existing).directory[p])
      && p == JoinPath(dir, Resolve(ct, t).value.fileName)
  {
    var h := Harvester(lines, fetch, dir, existing);
    var es := ExtractAll(lines).entities;
    var upstream := ExtractAll(lines).error;
    ExtractedFromSheets(lines);
    PipelinesWriteDisjointFiles(lines, fetch, dir, existing);
    var ct := if p in h.thumbnails.files then Thumbnail else Picture;
    var run := if ct == Thumbnail then h.thumbnails else h.pictures;
    assert p in run.files && h.directory[p] == run.files[p];
    var i := WriterOf(ct, dir, fetch, es, upstream, p);
    assert es[i] in es;
  }

  /**
   * One valid sheet: each content type independently writes exactly its fetched bytes,
   * or writes nothing when it skips; the outcome of the picture (a 404, say) does not
   * touch the thumbnail, and the other way round.
   */
  lemma SingleSheetRun(record: Json, fetch: string -> Response, dir: string, existing: map<string, Bytes>,
                       ct: ContentType)
    requires GetDepictionJson(record).Found?
    ensures var h := Harvester([Decoded(record)], fetch, dir, existing);
      var run := if ct == Picture then h.pictures else h.thumbnails;
      var outcome := Process(ct, dir, fetch, GetDepictionJson(record).value);
      && (outcome.Found? ==> h.directory[outcome.value.path] == outcome.value.body && run.processed == [outcome.value.gndId])
      && (outcome.Skip? ==> run.files == map[] && run.processed == [] && run.error == None)
      && (outcome.Raise? ==> run.files == map[] && run.error == Some(outcome.error))
  {
    var lines := [Decoded(record)];
    var d := GetDepictionJson(record).value;
    assert lines[1..] == [];
    assert ExtractAll(lines) == Extraction([d], None);
    HarvestOneTuple(Picture, dir, fetch, d);
    HarvestOneTuple(Thumbnail, dir, fetch, d);
    PipelinesWriteDisjointFiles(lines, fetch, dir, existing);
  }

  /** A pipeline that receives one tuple and then completes. */
  lemma HarvestOneTuple(ct: ContentType, dir: string, fetch: string -> Response, d: DepictionTuple)
    ensures Harvest(ct, dir, fetch, [d], None, map[]) ==
      match Process(ct, dir, fetch, d)
      case Found(w) => Run(map[w.path := w.body], [w.gndId], None)
      case Skip => Run(map[], [], None)
      case Raise(e) => Run(map[], [], Some(e))
  {
    assert [d][1..] == [];
    assert [d][0] == d;
    match Process(ct, dir, fetch, d)
    case Found(w) =>
      assert Harvest(ct, dir, fetch, [], None, map[w.path := w.body]) == Run(map[w.path := w.body], [], None);
    case Skip =>
      assert Harvest(ct, dir, fetch, [], None, map[]) == Run(map[], [], None);
    case Raise(e) =>
  }

  /**
   * N valid sheets with distinct identifiers whose pictures and thumbnails all resolve and
   * fetch with status 200 leave exactly N image files and N thumbnail files.
   */
  lemma AllSheetsHarvested(lines: seq<Line>, fetch: string -> Response, dir: string)
    requires forall i :: 0 <= i < |lines| ==> lines[i].Decoded? && GetDepictionJson(lines[i].record).Found?
    requires forall i, j :: 0 <= i < j < |lines| ==>
      GetDepictionJson(lines[i].record).value.gndId != GetDepictionJson(lines[j].record).value.gndId
    requires forall i, ct :: 0 <= i < |lines| ==> Process(ct, dir, fetch, GetDepictionJson(lines[i].record).value).Found?
    ensures var h := Harvester(lines, fetch, dir, map[]);
      && |h.pictures.files| == |lines| && |h.thumbnails.files| == |lines|
      && |h.directory| == 2 * |lines|
      && h.pictures.error == None && h.thumbnails.error == None
  {
    ValidSheetsStream(lines, fetch, dir);
    var es := ExtractAll(lines).entities;
    EveryTupleWritten(Picture, dir, fetch, es);
    EveryTupleWritten(Thumbnail, dir, fetch, es);
    PipelinesWriteDisjointFiles(lines, fetch, dir, map[]);
    var h := Harvester(lines, fetch, dir, map[]);
    EmptyUnion(h.pictures.files);
    DisjointUnionSize(h.pictures.files, h.thumbnails.files);
  }

  /** The stream of valid sheets: no error, distinct identifiers, every tuple fetched by both pipelines. */
  lemma ValidSheetsStream(lines: seq<Line>, fetch: string -> Response, dir: string)
    requires forall i :: 0 <= i < |lines| ==> lines[i].Decoded? && GetDepictionJson(lines[i].record).Found?
    requires forall i, j :: 0 <= i < j < |lines| ==>
      GetDepictionJson(lines[i].record).value.gndId != GetDepictionJson(lines[j].record).value.gndId
    requires forall i, ct :: 0 <= i < |lines| ==> Process(ct, dir, fetch, GetDepictionJson(lines[i].record).value).Found?
    ensures ExtractAll(lines).error == None && |ExtractAll(lines).entities| == |lines|
    ensures DistinctIds(ExtractAll(lines).entities)
    ensures forall i, ct :: 0 <= i < |ExtractAll(lines).entities| ==>
      Process(ct, dir, fetch, ExtractAll(lines).entities[i]).Found?
  {
    ExtractAllValid(lines);
    var es := ExtractAll(lines).entities;
    forall i, ct | 0 <= i < |es| ensures Process(ct, dir, fetch, es[i]).Found? {
      assert es[i] == GetDepictionJson(lines[i].record).value;
    }
    forall i, j | 0 <= i < j < |es| ensures es[i].gndId != es[j].gndId {
      assert es[i] == GetDepictionJson(lines[i].record).value;
      assert es[j] == GetDepictionJson(lines[j].record).value;
    }
  }

  /** A pipeline in which every tuple is fetched writes one file per tuple. */
  lemma EveryTupleWritten(ct: ContentType, dir: string, fetch: string -> Response, es: seq<DepictionTuple>)
    requires DistinctIds(es)
    requires forall i :: 0 <= i < |es| ==> Process(ct, dir, fetch, es[i]).Found?
    ensures |Harvest(ct, dir, fetch, es, None, map[]).files| == |es|
    ensures Harvest(ct, dir, fetch, es, None, map[]).error == None
  {
    HarvestFileCount(ct, dir, fetch, es, None, map[]);
  }

  lemma EmptyUnion<K, V>(a: map<K, V>)
    ensures map[] + a == a
  {
  }

  lemma DisjointUnionSize<K, V>(a: map<K, V>, b: map<K, V>)
    requires a.Keys !! b.Keys
    ensures |a + b| == |a| + |b|
  {
    assert (a + b).Keys == a.Keys + b.Keys;
    assert |(a + b).Keys| == |a.Keys| + |b.Keys|;
  }

}
