/**
 * data_pipelines/index_pipeline.py: which URLs the pipeline reads, which
 * records of the video-info file it turns into documents, and the control
 * flow of run. The vector index is the list of documents inserted into it;
 * embedding, chunking and persisting it are left to the library.
 */
module IndexPipeline {
  import opened Wrappers
  import opened Text
  import opened ParserTranscribe

  // ---------------------------------------------------------------------
  // _get_download_urls

  /** [line.strip() for line in f if line.strip()]. */
  function DownloadUrls(lines: seq<string>): seq<string> {
    if |lines| == 0 then []
    else DownloadUrls(lines[..|lines| - 1])
         + (if Strip(lines[|lines| - 1]) != "" then [Strip(lines[|lines| - 1])] else [])
  }

  /** The URLs are the stripped non-blank lines: none is blank or has
      whitespace at an end, and every non-blank line gives one. */
  lemma {:induction false} DownloadUrlsShape(lines: seq<string>)
    ensures |DownloadUrls(lines)| <= |lines|
    ensures forall u :: u in DownloadUrls(lines) ==> u != "" && Strip(u) == u
    ensures forall u :: u in DownloadUrls(lines) <==> exists l :: l in lines && Strip(l) == u && u != ""
    decreases |lines|
  {
    if |lines| > 0 {
      var init, last := lines[..|lines| - 1], lines[|lines| - 1];
      DownloadUrlsShape(init);
      StripIdempotent(last);
      assert lines == init + [last];
      forall u | u in DownloadUrls(lines) ensures exists l :: l in lines && Strip(l) == u && u != "" {
        if u in DownloadUrls(init) {
          var l :| l in init && Strip(l) == u && u != "";
          assert l in lines;
        } else {
          assert last in lines;
        }
      }
      forall u | (exists l :: l in lines && Strip(l) == u && u != "") ensures u in DownloadUrls(lines) {
        var l :| l in lines && Strip(l) == u && u != "";
        if l != last {
          assert l in init;
        }
      }
    }
  }

  /** The lines are read in order: the URLs of a file read in two parts are
      the URLs of the parts, one after the other. */
  lemma {:induction false} DownloadUrlsAppend(a: seq<string>, b: seq<string>)
    ensures DownloadUrls(a + b) == DownloadUrls(a) + DownloadUrls(b)
    decreases |b|
  {
    if |b| == 0 {
      assert a + b == a;
    } else {
      DownloadUrlsAppend(a, b[..|b| - 1]);
      assert (a + b)[..|a + b| - 1] == a + b[..|b| - 1];
    }
  }

  /** A file holding the URLs, one per line, reads back as the same list. */
  lemma {:induction false} DownloadUrlsIdempotent(lines: seq<string>)
    ensures DownloadUrls(DownloadUrls(lines)) == DownloadUrls(lines)
    decreases |lines|
  {
    if |lines| > 0 {
      var init, last := lines[..|lines| - 1], lines[|lines| - 1];
      DownloadUrlsIdempotent(init);
      var u := DownloadUrls(init);
      if Strip(last) != "" {
        var s := Strip(last);
        StripIdempotent(last);
        assert DownloadUrls(lines) == u + [s];
        DownloadUrlsAppend(u, [s]);
        assert [s][..0] == [];
        assert DownloadUrls([s]) == [s];
      } else {
        assert DownloadUrls(lines) == u;
      }
    }
  }

  // ---------------------------------------------------------------------
  // The selection of lines 90-94

  datatype IndexError =
    | NoUrl(index: nat)     // j["url"][0] on an empty list
    | NoText(index: nat)    // data["text"][0] on an empty list
    | NoTitle(index: nat)   // data["title"][0] on an empty list

  /** The record's first url is url. */
  predicate HasUrl(rec: VideoRecord, url: string) {
    |rec.url| > 0 && rec.url[0] == url
  }

  /** The records the inner loop appends for one url, in file order. */
  function RecordsFor(url: string, data: seq<VideoRecord>): seq<VideoRecord> {
    if |data| == 0 then []
    else RecordsFor(url, data[..|data| - 1])
         + (if HasUrl(data[|data| - 1], url) then [data[|data| - 1]] else [])
  }

  /** The records of every url in turn. */
  function Selection(newVideos: seq<string>, data: seq<VideoRecord>): seq<VideoRecord> {
    if |newVideos| == 0 then []
    else Selection(newVideos[..|newVideos| - 1], data) + RecordsFor(newVideos[|newVideos| - 1], data)
  }

  /** The first record without a url. */
  function FirstWithoutUrl(data: seq<VideoRecord>, from: nat): (r: Option<nat>)
    requires from <= |data|
    ensures r.Some? ==> from <= r.value < |data| && |data[r.value].url| == 0
    ensures forall k :: from <= k < |data| && (r.None? || k < r.value) ==> |data[k].url| > 0
    decreases |data| - from
  {
    if from == |data| then None
    else if |data[from].url| == 0 then Some(from)
    else FirstWithoutUrl(data, from + 1)
  }

  /** The result of the nested loops: the first pass over the records reads
      every first url, so a record without one raises as soon as there is a
      url to look for. */
  function Select(newVideos: seq<string>, data: seq<VideoRecord>): Result<seq<VideoRecord>, IndexError> {
    if |newVideos| == 0 then Ok([])
    else match FirstWithoutUrl(data, 0)
      case Some(k) => Err(NoUrl(k))
      case None => Ok(Selection(newVideos, data))
  }

  /** The nested loops of lines 90-94 as written. */
  method SelectRecords(newVideos: seq<string>, data: seq<VideoRecord>) returns (r: Result<seq<VideoRecord>, IndexError>)
    ensures r == Select(newVideos, data)
  {
    var toDownload: seq<VideoRecord> := [];
    var i := 0;
    while i < |newVideos|
      invariant 0 <= i <= |newVideos|
      invariant toDownload == Selection(newVideos[..i], data)
      invariant i > 0 ==> FirstWithoutUrl(data, 0).None?
    {
      var url := newVideos[i];
      var j := 0;
      while j < |data|
        invariant 0 <= j <= |data|
        invariant toDownload == Selection(newVideos[..i], data) + RecordsFor(url, data[..j])
        invariant forall k :: 0 <= k < j ==> |data[k].url| > 0
      {
        if |data[j].url| == 0 {
          return Err(NoUrl(j));
        }
        if url == data[j].url[0] {
          toDownload := toDownload + [data[j]];
        }
        assert data[..j + 1][..j] == data[..j];
        j := j + 1;
      }
      assert data[..j] == data;
      assert newVideos[..i + 1][..i] == newVideos[..i];
      i := i + 1;
    }
    assert newVideos[..i] == newVideos;
    return Ok(toDownload);
  }

  /** A record is selected once for every time its url is listed, and only
      then: duplicates in either list are kept. */
  lemma {:induction false} RecordsForCount(url: string, data: seq<VideoRecord>, rec: VideoRecord)
    ensures multiset(RecordsFor(url, data))[rec] == if HasUrl(rec, url) then multiset(data)[rec] else 0
    decreases |data|
  {
    if |data| > 0 {
      var init := data[..|data| - 1];
      RecordsForCount(url, init, rec);
      assert data == init + [data[|data| - 1]];
    }
  }

  lemma {:induction false} SelectionCount(newVideos: seq<string>, data: seq<VideoRecord>, rec: VideoRecord)
    requires |rec.url| > 0
    ensures multiset(Selection(newVideos, data))[rec] == multiset(newVideos)[rec.url[0]] * multiset(data)[rec]
    decreases |newVideos|
  {
    if |newVideos| > 0 {
      var init, last := newVideos[..|newVideos| - 1], newVideos[|newVideos| - 1];
      assert newVideos == init + [last];
      SelectionCount(init, data, rec);
      SelectionCountStep(init, last, data, rec);
      CountStep(multiset(Selection(init, data))[rec], multiset(init)[rec.url[0]], multiset(data)[rec],
                multiset(RecordsFor(last, data))[rec], if last == rec.url[0] then 1 else 0);
    }
  }

  /** Listing one more url adds that url's records to the selection. */
  lemma SelectionCountStep(init: seq<string>, last: string, data: seq<VideoRecord>, rec: VideoRecord)
    requires |rec.url| > 0
    ensures multiset(init + [last])[rec.url[0]] == multiset(init)[rec.url[0]] + (if last == rec.url[0] then 1 else 0)
    ensures multiset(Selection(init + [last], data))[rec]
         == multiset(Selection(init, data))[rec] + multiset(RecordsFor(last, data))[rec]
    ensures multiset(RecordsFor(last, data))[rec] == if last == rec.url[0] then multiset(data)[rec] else 0
  {
    RecordsForCount(last, data, rec);
    CountAppend(init, [last], rec.url[0]);
    assert Selection(init + [last], data) == Selection(init, data) + RecordsFor(last, data) by {
      assert (init + [last])[..|init + [last]| - 1] == init;
    }
    CountAppend(Selection(init, data), RecordsFor(last, data), rec);
  }

  /** One more listing of a url adds the record's count once more. */
  lemma CountStep(s: nat, c: nat, b: nat, r: nat, d: nat)
    requires s == c * b && (d == 0 || d == 1) && r == (if d == 1 then b else 0)
    ensures s + r == (c + d) * b
  {
  }

  lemma CountAppend<T>(a: seq<T>, b: seq<T>, x: T)
    ensures multiset(a + b)[x] == multiset(a)[x] + multiset(b)[x]
  {
    assert multiset(a + b) == multiset(a) + multiset(b);
  }

  /** Every selected record's first url is one of the new videos, and the
      selection follows the url list: the records of a longer list extend
      those of its prefix. */
  lemma SelectionShape(newVideos: seq<string>, more: seq<string>, data: seq<VideoRecord>)
    ensures forall rec :: rec in Selection(newVideos, data) ==> |rec.url| > 0 && rec.url[0] in newVideos && rec in data
    ensures Selection(newVideos + more, data) == Selection(newVideos, data) + Selection(more, data)
  {
    forall rec | rec in Selection(newVideos, data)
      ensures |rec.url| > 0 && rec.url[0] in newVideos && rec in data
    {
      if |rec.url| > 0 {
        SelectionCount(newVideos, data, rec);
      } else {
        SelectionHasUrls(newVideos, data);
      }
    }
    SelectionAppend(newVideos, more, data);
  }

  lemma {:induction false} SelectionHasUrls(newVideos: seq<string>, data: seq<VideoRecord>)
    ensures forall rec :: rec in Selection(newVideos, data) ==> |rec.url| > 0
    decreases |newVideos|
  {
    if |newVideos| > 0 {
      SelectionHasUrls(newVideos[..|newVideos| - 1], data);
      RecordsForHasUrl(newVideos[|newVideos| - 1], data);
    }
  }

  lemma {:induction false} RecordsForHasUrl(url: string, data: seq<VideoRecord>)
    ensures forall rec :: rec in RecordsFor(url, data) ==> HasUrl(rec, url)
    decreases |data|
  {
    if |data| > 0 {
      RecordsForHasUrl(url, data[..|data| - 1]);
    }
  }

  lemma {:induction false} SelectionAppend(a: seq<string>, b: seq<string>, data: seq<VideoRecord>)
    ensures Selection(a + b, data) == Selection(a, data) + Selection(b, data)
    decreases |b|
  {
    if |b| == 0 {
      assert a + b == a;
    } else {
      SelectionAppend(a, b[..|b| - 1], data);
      assert (a + b)[..|a + b| - 1] == a + b[..|b| - 1];
    }
  }

  // ---------------------------------------------------------------------
  // The documents of lines 97-103

  /** A llama_index Document: the text and the url and title metadata. */
  datatype Document = Document(text: Option<string>, url: string, title: Option<string>)

  /** data["text"][0], data["url"][0] and data["title"][0] all exist. */
  predicate Complete(rec: VideoRecord) {
    |rec.text| > 0 && |rec.url| > 0 && |rec.title| > 0
  }

  /** The error for a record missing a field: the fields are read in the
      order text, url, title. */
  function MissingField(rec: VideoRecord, k: nat): IndexError
    requires !Complete(rec)
  {
    if |rec.text| == 0 then NoText(k)
    else if |rec.url| == 0 then NoUrl(k)
    else NoTitle(k)
  }

  /** The comprehension of lines 97-103 from position `from` on. */
  function BuildDocuments(records: seq<VideoRecord>, from: nat): (r: Result<seq<Document>, IndexError>)
    requires from <= |records|
    ensures r.Ok? <==> forall k :: from <= k < |records| ==> Complete(records[k])
    ensures r.Ok? ==>
      && |r.value| == |records| - from
      && forall k :: from <= k < |records| ==>
           r.value[k - from] == Document(records[k].text[0], records[k].url[0], records[k].title[0])
    ensures r.Err? ==>
      exists k :: from <= k < |records| && !Complete(records[k]) && r.error == MissingField(records[k], k)
                  && forall j :: from <= j < k ==> Complete(records[j])
    decreases |records| - from
  {
    if from == |records| then Ok([])
    else
      var rec := records[from];
      if !Complete(rec) then Err(MissingField(rec, from))
      else match BuildDocuments(records, from + 1)
        case Err(e) => Err(e)
        case Ok(rest) => Ok([Document(rec.text[0], rec.url[0], rec.title[0])] + rest)
  }

  /** The documents _get_index inserts into the index, in order. */
  function IndexDocuments(newVideos: seq<string>, data: seq<VideoRecord>): Result<seq<Document>, IndexError> {
    match Select(newVideos, data)
    case Err(e) => Err(e)
    case Ok(selected) => BuildDocuments(selected, 0)
  }

  /** Every inserted document comes from a record of a new video and carries
      that record's first url. */
  lemma IndexDocumentsFromNewVideos(newVideos: seq<string>, data: seq<VideoRecord>)
    requires IndexDocuments(newVideos, data).Ok?
    ensures forall d :: d in IndexDocuments(newVideos, data).value ==>
      d.url in newVideos && exists rec :: rec in data && Complete(rec) && rec.url[0] == d.url && d.text == rec.text[0]
  {
    if |newVideos| > 0 {
      var selected := Selection(newVideos, data);
      SelectionShape(newVideos, [], data);
      var docs := BuildDocuments(selected, 0).value;
      forall d | d in docs
        ensures d.url in newVideos && exists rec :: rec in data && Complete(rec) && rec.url[0] == d.url && d.text == rec.text[0]
      {
        var k :| 0 <= k < |docs| && docs[k] == d;
        assert selected[k] in selected;
      }
    }
  }

  // ---------------------------------------------------------------------
  // run

  /** The URLs run goes on with: none when the file has none, only the first
      one in test mode. */
  function VideosToProcess(urls: seq<string>, test: bool): (r: seq<string>)
    ensures |urls| == 0 ==> r == []
    ensures test ==> |r| == (if |urls| == 0 then 0 else 1)
    ensures r <= urls
    ensures !test ==> r == urls
  {
    if |urls| == 0 then [] else if test then urls[..1] else urls
  }

  /** The file after _transcribe_videos: each url in turn is downloaded and
      transcribed; the first error stops the loop. */
  function ProcessAll(records: seq<VideoRecord>, urls: seq<string>, download: string -> VideoInfo,
                      listing: string -> seq<string>, whisper: Whisper, maxAttempts: int): Processed
    decreases |urls|
  {
    if |urls| == 0 then Processed(records, None)
    else
      var info := download(urls[0]);
      var p := ProcessVideo(records, info, listing(info.audioPath), whisper, maxAttempts);
      if p.error.Some? then p
      else ProcessAll(p.records, urls[1..], download, listing, whisper, maxAttempts)
  }

  /** The url yt-dlp reports for each url, in order. */
  function ReportedUrls(urls: seq<string>, download: string -> VideoInfo): seq<string>
    decreases |urls|
  {
    if |urls| == 0 then [] else [download(urls[0]).url] + ReportedUrls(urls[1..], download)
  }

  /** One step of ProcessAll: the first url's video, then the rest unless it failed. */
  lemma ProcessAllStep(records: seq<VideoRecord>, urls: seq<string>, download: string -> VideoInfo,
                       listing: string -> seq<string>, whisper: Whisper, maxAttempts: int)
    requires |urls| > 0
    ensures var info := download(urls[0]);
      var p1 := ProcessVideo(records, info, listing(info.audioPath), whisper, maxAttempts);
      ProcessAll(records, urls, download, listing, whisper, maxAttempts)
        == if p1.error.Some? then p1 else ProcessAll(p1.records, urls[1..], download, listing, whisper, maxAttempts)
  {
  }

  lemma KeepsUrlsTrans(a: seq<VideoRecord>, b: seq<VideoRecord>, c: seq<VideoRecord>, r1: seq<string>, r2: seq<string>)
    requires KeepsUrls(a, b, r1) && KeepsUrls(b, c, r2)
    ensures KeepsUrls(a, c, r1 + r2)
  {
    forall k | |a| <= k < |c| ensures |c[k].url| == 1 && c[k].url[0] in r1 + r2 {
      if k < |b| {
        assert c[k].url == b[k].url;
      }
    }
  }

  /** Over all the urls, successful or not, no existing record's url
      changes, the file grows by at most one record per url, and every added
      record carries the url yt-dlp reported for one of the urls. */
  lemma {:induction false} ProcessAllKeepsUrls(records: seq<VideoRecord>, urls: seq<string>, download: string -> VideoInfo,
                                               listing: string -> seq<string>, whisper: Whisper, maxAttempts: int)
    ensures var p := ProcessAll(records, urls, download, listing, whisper, maxAttempts);
      && |p.records| <= |records| + |urls|
      && KeepsUrls(records, p.records, ReportedUrls(urls, download))
    decreases |urls|
  {
    if |urls| > 0 {
      var info := download(urls[0]);
      var p1 := ProcessVideo(records, info, listing(info.audioPath), whisper, maxAttempts);
      ProcessVideoKeepsUrls(records, info, listing(info.audioPath), whisper, maxAttempts);
      ProcessAllStep(records, urls, download, listing, whisper, maxAttempts);
      var rest := urls[1..];
      assert ReportedUrls(urls, download) == [info.url] + ReportedUrls(rest, download);
      if p1.error.None? {
        ProcessAllKeepsUrls(p1.records, rest, download, listing, whisper, maxAttempts);
        var p := ProcessAll(p1.records, rest, download, listing, whisper, maxAttempts);
        KeepsUrlsTrans(records, p1.records, p.records, [info.url], ReportedUrls(rest, download));
      } else {
        KeepsUrlsTrans(records, p1.records, p1.records, [info.url], ReportedUrls(rest, download));
      }
    }
  }

  datatype RunError = TranscriptionFailed(error: PipelineError) | IndexingFailed(indexError: IndexError)

  /** _transcribe_videos. */
  method TranscribeVideos(file: VideoInfoFile, urls: seq<string>, download: string -> VideoInfo,
                          listing: string -> seq<string>, whisper: Whisper, maxAttempts: int)
    returns (error: Option<PipelineError>)
    modifies file
    ensures file.records == ProcessAll(old(file.records), urls, download, listing, whisper, maxAttempts).records
    ensures error == ProcessAll(old(file.records), urls, download, listing, whisper, maxAttempts).error
  {
    var i := 0;
    while i < |urls|
      invariant 0 <= i <= |urls|
      invariant ProcessAll(old(file.records), urls, download, listing, whisper, maxAttempts)
             == ProcessAll(file.records, urls[i..], download, listing, whisper, maxAttempts)
    {
      assert urls[i..][0] == urls[i] && urls[i..][1..] == urls[i + 1..];
      error := file.GetTranscribeVideo(urls[i], download, listing, whisper, maxAttempts);
      if error.Some? {
        return;
      }
      i := i + 1;
    }
    return None;
  }

  /** run: lines are the lines of the url file, index the documents already
      in the stored index (none when there is no stored index), download,
      listing and whisper the external tools. The result is the index after
      the new documents are inserted. */
  method Run(file: VideoInfoFile, lines: seq<string>, test: bool, index: seq<Document>,
             download: string -> VideoInfo, listing: string -> seq<string>, whisper: Whisper, maxAttempts: int)
    returns (r: Result<seq<Document>, RunError>)
    modifies file
    ensures var videos := VideosToProcess(DownloadUrls(lines), test);
      var p := ProcessAll(old(file.records), videos, download, listing, whisper, maxAttempts);
      && file.records == p.records
      && (p.error.Some? ==> r == Err(TranscriptionFailed(p.error.value)))
      && (p.error.None? && IndexDocuments(videos, p.records).Err? ==>
            r == Err(IndexingFailed(IndexDocuments(videos, p.records).error)))
      && (p.error.None? && IndexDocuments(videos, p.records).Ok? ==>
            r == Ok(index + IndexDocuments(videos, p.records).value))
  {
    var newVideos := DownloadUrls(lines);
    if |newVideos| == 0 {
      assert BuildDocuments([], 0) == Ok([]);
      assert index + [] == index;
      return Ok(index);
    }
    if test {
      newVideos := newVideos[..1];
    }
    var error := TranscribeVideos(file, newVideos, download, listing, whisper, maxAttempts);
    if error.Some? {
      return Err(TranscriptionFailed(error.value));
    }
    var selected := SelectRecords(newVideos, file.records);
    if selected.Err? {
      return Err(IndexingFailed(selected.error));
    }
    var documents := BuildDocuments(selected.value, 0);
    if documents.Err? {
      return Err(IndexingFailed(documents.error));
    }
    return Ok(index + documents.value);
  }

  /** An empty url file leaves the video-info file and the index as they
      are; in test mode at most one video is downloaded and indexed. */
  lemma RunScope(lines: seq<string>, test: bool, records: seq<VideoRecord>, download: string -> VideoInfo,
                 listing: string -> seq<string>, whisper: Whisper, maxAttempts: int)
    ensures DownloadUrls(lines) == [] ==>
      && ProcessAll(records, VideosToProcess(DownloadUrls(lines), test), download, listing, whisper, maxAttempts)
         == Processed(records, None)
      && IndexDocuments(VideosToProcess(DownloadUrls(lines), test), records) == Ok([])
    ensures test && DownloadUrls(lines) != [] ==>
      && VideosToProcess(DownloadUrls(lines), test) == [DownloadUrls(lines)[0]]
      && forall d :: IndexDocuments([DownloadUrls(lines)[0]], records).Ok? && d in IndexDocuments([DownloadUrls(lines)[0]], records).value ==>
           d.url == DownloadUrls(lines)[0]
  {
    if test && DownloadUrls(lines) != [] {
      var first := [DownloadUrls(lines)[0]];
      if IndexDocuments(first, records).Ok? {
        IndexDocumentsFromNewVideos(first, records);
      }
    }
  }
}
