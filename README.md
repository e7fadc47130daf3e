# RAG YouTube ITMO: a Dafny model of the sequential core

The repository is a Telegram bot that answers questions from the transcripts of
a YouTube channel. Around it are the scripts and pipelines that download,
transcribe, clean, chunk and index those transcripts. Most of the code is glue
around Telegram, OpenAI, llama_index, yt-dlp and ffmpeg. This project models the
parts that are plain sequential logic, keeps each in the form it has in the
source, and proves what they promise.

| module | file | models |
|---|---|---|
| `PrepareChunks` | chunker.dfy | the per-file loop of `scripts/prepare_chunks.py`, as the method `ChunkFile` proved against the declarative greedy packing `IsGreedyPacking` |
| `CleanTranscripts` | cleaner.dfy | `clean_text` as a chain of five functions, and the loops of `clean_transcript_files` as methods, one over an array of segments |
| `Ranking` | ranking.dfy | the token filter of `preprocess_text` and `predict_with_trained_model`, with its loops as methods |
| `App` | answer.dfy | `escape_html`, the mention stripping, the reply-question extraction, the link block and the YES/NO template of `answer` in `app/app.py` |
| `ParserTranscribe` | parser_transcribe.dfy | the record bookkeeping of `ParserTranscribe`; the video-info JSON file is the class `VideoInfoFile`, and the retry loop is a method |
| `IndexPipeline` | index_pipeline.dfy | `_get_download_urls`, the selection and document building of `_get_index`, and `run` |
| `Regex` | regex.dfy | `re.sub` for the three patterns the core uses: a left-to-right scan with `\b`, `\w` and `\s` |
| `Text` | text.dfy | Python `str`: `isspace`, `split()`, `strip()`, `join`, `replace`, `startswith`, `endswith` |
| `Lists`, `Wrappers` | lists.dfy, wrappers.dfy | generic filter, flat map and dedup over lists; `Option` and `Result` |

Services are parameters. The language model's replies, the retriever's nodes,
the BM25 scores and their argsort, the lemmatised tokens, the stopwords, yt-dlp's
video info, the directory listing after ffmpeg and the Whisper call are all
arguments. Whisper is an oracle from (segment, attempt) to a transcript or a
timeout. A Python exception that the code lets escape becomes a `Result` error:
`IndexError` from `segments[0]`, from `findall(...)[0]`, from `[0]` on an
empty list field, or from a candidate index past the end of a score array;
`KeyError` from `links`; and the re-raised `APITimeoutError`.

## Model

The functions that model the source's functions carry no contract of their own. Each is named at the head of the row of the lemma or method that states its properties.

| member | source | states |
|---|---|---|
| PrepareChunks.ChunkFile | scripts/prepare_chunks.py:9-41 | An empty segment list fails, as `segments[0]` does. Otherwise the chunks form the greedy packing of the segments: the flush test is the current chunk's word count plus the segment's exceeding 600. Each chunk holds the stripped text of a run of consecutive segments, with `time_range` from its first segment's start to its last segment's end. The final chunk is always emitted. Chunk ids are 0, 1, 2, …, and every chunk carries the video id from the file name. |
| PrepareChunks.BeforeFirst | scripts/prepare_chunks.py:9 | `split(sep)[0]` is the longest prefix before the first occurrence of `sep`: no occurrence starts inside it, and one starts right after it unless it is the whole string |
| PrepareChunks.VideoIdOfTranscriptName | scripts/prepare_chunks.py:9 | the file `<id>_transcript.json` yields the video id `<id>` when the suffix does not start earlier |
| PrepareChunks.JoinedWords | scripts/prepare_chunks.py:21-32 | `current_chunk.split()` is the words of the segments appended so far, in order |
| PrepareChunks.PackingIds | scripts/prepare_chunks.py:17-40 | in any greedy packing, chunk k has `chunk_id` k and the file's video id |
| PrepareChunks.PackingConservesWords | scripts/prepare_chunks.py:19-41 | the words of all chunk texts, in chunk order, are the words of all segment texts in input order |
| PrepareChunks.PackingBudget | scripts/prepare_chunks.py:19-33 | a chunk has at most 600 words unless it is a single segment that alone has more than 600 |
| PrepareChunks.PackingEmptyFirstChunk | scripts/prepare_chunks.py:14-30 | chunk 0 holds no segment exactly when the first segment alone has over 600 words; it is then `""` with range from the first segment's start to 0, and at least one more chunk follows |
| PrepareChunks.PackingCut | scripts/prepare_chunks.py:19-33 | the cut points are ordered, every chunk after chunk 0 holds at least one segment, and only the last cut reaches the end |
| PrepareChunks.PackingUnique | scripts/prepare_chunks.py:19-41 | two greedy packings of the same segments are equal, so the specification fixes the script's output |
| CleanTranscripts.KeepCharsKeeps | scripts/clean_transcripts.py:14 | the character filter keeps only characters of `[a-zA-Z0-9\s.,!?'"-]`, all taken from the input, and leaves a text made of them unchanged |
| CleanTranscripts.NormalizeShape | scripts/clean_transcripts.py:20 | `' '.join(text.split())` keeps the words, leaves single spaces between non-space characters only, and adds no other character |
| CleanTranscripts.CleanTextShape | scripts/clean_transcripts.py:5-22 | `CleanTranscripts.CleanText` models `clean_text`. The output of `clean_text` holds only lowercase ASCII letters, digits, `' '` and `. , ! ? ' " -`; it has no whitespace at either end and no two spaces in a row |
| CleanTranscripts.CleanTailIdempotent | scripts/clean_transcripts.py:14-20 | the filter, lowercase and whitespace stages applied twice give what they give once |
| CleanTranscripts.CleanTranscript | scripts/clean_transcripts.py:39-41 | the cleaned transcript has the same length, and segment j is segment j with only its text cleaned, when it has one |
| CleanTranscripts.CleanSegments | scripts/clean_transcripts.py:39-41 | in place on the array: each segment with a `text` gets that text cleaned, and nothing else changes |
| CleanTranscripts.CleanTranscriptFiles | scripts/clean_transcripts.py:29-47 | every `*_transcript.json` file that loads has its segments cleaned, every other file is unchanged, and `processed_count` counts the cleaned files |
| Regex.SubFromLength | scripts/clean_transcripts.py:8-11 | `re.sub` with these patterns never lengthens the text, and keeps its length exactly when no match is found |
| Regex.SubUnchangedIff | scripts/clean_transcripts.py:8-11 | `Regex.Sub` models `re.sub` here and at app/app.py:55 as a left-to-right scan. `re.sub` returns the text unchanged exactly when the pattern matches nowhere |
| Regex.FillerMatchIff | scripts/clean_transcripts.py:7-8 | `Regex.FillerAt` models the filler pattern. A filler matches at i exactly when a listed word occurs there, ignoring case as `re.IGNORECASE` folds it for these ASCII words (`Regex.Fold`: the capitals, İ and ı with `i`, ſ with `s`, the Kelvin sign with `k`), between word boundaries. The first such word in list order is removed. |
| Regex.FillersKeepAlso | scripts/clean_transcripts.py:7-8 | `"so"` inside `"also"` is kept: `re.sub` leaves `"also"` as it is |
| Regex.FillersFoldDotlessI | scripts/clean_transcripts.py:7-8 | `re.IGNORECASE` folds the dotless ı with `i`, so `"LıKE"` is the filler "like" and is removed |
| Regex.StutterMatchComplete | scripts/clean_transcripts.py:11 | a whole word, whitespace and the same word again, between boundaries, are replaced by one copy |
| Regex.StutterMatchSound | scripts/clean_transcripts.py:11 | a stutter match is always a maximal word run, a maximal whitespace run and the same text again, between boundaries |
| Regex.StutterThreeTimes | scripts/clean_transcripts.py:11 | matches do not overlap: `"the the the"` becomes `"the the"` |
| Regex.MentionMatch | app/app.py:55 | the mention pattern matches at i exactly when `@rag_youtube_itmo_bot` starts there; the match then ends after the whole run of commas and whitespace that follows |
| Ranking.PreprocessMembers | app/utils.py:19-28 | `Ranking.PreprocessText` models `preprocess_text`. A token is kept exactly when it is in the input and passes every test of the comprehension, and no token is added |
| Ranking.PreprocessAppend | app/utils.py:19-28 | the filter works token by token and keeps the relative order |
| Ranking.PreprocessIdempotent | app/utils.py:19-28 | filtering the kept tokens again keeps them all |
| Ranking.WhitespaceTokenDropped | app/utils.py:23-24 | a whitespace-only token is always dropped: it strips to `""`, which `in punctuation` finds |
| Ranking.UnicodeDigitTokenDropped | app/utils.py:27 | `isdigit` accepts non-ASCII digits, so `"²"` and the Arabic-Indic `"١٢"` are dropped |
| Ranking.PunctuationRunDropped | app/utils.py:24 | the punctuation test is a substring test, so a run such as `"()"` is dropped |
| Ranking.PunctuationTestPasses | app/utils.py:22-27 | a token holding a character that is neither whitespace nor punctuation passes the punctuation test, so only the stopword, `https`, `://` and digit tests decide |
| Ranking.Last3AreTop | app/utils.py:55-59 | the last three of an ascending argsort are indices of the scores, and no index left out scores higher than one taken |
| Ranking.Candidates | app/utils.py:61 | there are at most six candidates |
| Ranking.SameIndexSamePair | app/utils.py:65-66 | two candidates give equal (score, index) pairs exactly when they are the same index, and the score is at least each of the two scores |
| Ranking.SortDescShape | app/utils.py:66 | the sort is non-increasing by score and keeps the same elements, the same count and the absence of duplicates |
| Ranking.TopThreeIsTop | app/utils.py:66 | `sorted(set(score), reverse)[:3]` is duplicate-free and non-increasing, drawn from the pool, of size min(3, distinct pairs), and no pair left out scores above one kept |
| Ranking.AboveThresholdShape | app/utils.py:69 | the threshold keeps exactly the entries scoring above 6.6, in their order |
| Ranking.LinksOf | app/utils.py:71-74 | one (link, title) per survivor, in the survivors' order |
| Ranking.ScoreCandidates | app/utils.py:63-65 | the loop scores every candidate by the larger of its two scores, or fails with `IndexError` exactly when a candidate is out of range of either array |
| Ranking.LookupLinks | app/utils.py:71-74 | the loop returns the survivors' links in order, or fails with a `KeyError` at the first survivor whose index `links` lacks: every survivor before it has a link |
| Ranking.PredictWithTrainedModel | app/utils.py:55-76 | It fails with `IndexError` exactly when a candidate is out of range. Otherwise the entries taken are a top three of the candidates' (score, index) pairs. The result is the links of those entries scoring above 6.6, at most three, or a `KeyError` for the first of them whose link is missing. |
| App.EscapeHtmlEncodes | app/app.py:109-110 | `App.EscapeHtml` models `escape_html`. `escape_html` replaces each `&`, `<`, `>` and `"` by its entity and keeps every other character in order |
| App.EscapeHtmlNoMarkup | app/app.py:110 | the escaped text has no `<`, `>` or `"` |
| App.EscapeHtmlLength | app/app.py:110 | the length grows by 4 per `&`, 3 per `<` and `>`, and 5 per `"` |
| App.EscapeHtmlRoundTrip | app/app.py:110 | undoing `&quot;`, `&gt;`, `&lt;`, then `&amp;` gives the input back |
| App.StripMentionDeletes | app/app.py:213 | `App.StripMention` models `message_regex.sub('', ...)`. When no bot mention starts before the first one (other `@` are allowed), that mention is deleted with the commas and whitespace right after it; the text before it is kept, and the rest after it is stripped the same way, so later mentions go too |
| App.NoAtMentionFree | app/app.py:213 | text without `@` holds no start of a bot mention, so the deletion above applies to the first mention of a message |
| App.StripMentionOtherUser | app/app.py:213 | a mention of another user is kept: `"@alice @rag_youtube_itmo_bot, hi"` becomes `"@alice hi"` |
| App.StripMentionNoAt | app/app.py:213 | a message without `@` is left as it is |
| App.FindFrom | app/app.py:54 | the first occurrence of a string from a position on, or none at all |
| App.FirstQuestionSpanIsLeftmostLazy | app/app.py:54 | the span is the regular expression's first match: no match starts further left, no match at that start has a shorter lazy capture, and there is no match when none is reported |
| App.ExtractQuestion | app/app.py:114 | `findall(...)[0]` exists exactly when `Вопрос: … \n\n` matches somewhere, and it is the capture of the first match: the text after `Вопрос: ` at the leftmost match, up to the terminator found there |
| App.ExtractQuestionShape | app/app.py:114 | the capture sits between `Вопрос: ` and ` \n\n` in the reply, and holds no earlier ` \n\n` |
| App.RetrievalQuery | app/app.py:112-120 | without a reply the query is the message; in reply mode it fails with `IndexError` exactly when the reply has no question |
| App.NodeLines | app/app.py:121-127 | one link line per retrieved node, with its url and escaped title |
| App.RankedLines | app/app.py:128 | one link line per ranked link, with its url and escaped title |
| App.LinkLinesUnion | app/app.py:127-131 | the link block holds each line of either set exactly once, and nothing else |
| App.AnswerIgnoresContextUnlessYes | app/app.py:163-187 | unless the verdict strips to `YES`, the retrieved nodes, links and context reply do not matter; the answer is the heading, the apology, the plain reply and `" \n\n"` |
| App.AnswerWithContext | app/app.py:169-187 | with a `YES` verdict the plain reply does not matter; the answer is the heading, the context reply, `" \n\n"`, the header and the link block |
| App.AnswerErrors | app/app.py:112-120 | `App.Answer` models `answer` (app/app.py:104-188). The answer fails exactly when the replied-to text has no question or the ranking failed |
| ParserTranscribe.UrlIsNewIff | data_pipelines/parser_transcribe.py:93-97 | On records that all have a url, the scan succeeds. `exist_url` is true exactly when no record's first url is the new one. An error names an empty url list read before any duplicate. |
| ParserTranscribe.ScanForUrl | data_pipelines/parser_transcribe.py:93-96 | the loop, with `and` stopping at the first duplicate, computes that answer |
| ParserTranscribe.AddVideoAppends | data_pipelines/parser_transcribe.py:88-98 | `ParserTranscribe.AddVideo` models the append step. Existing records are unchanged and the list grows by at most one record. It grows exactly when no record has the url. The new record holds one-element url, title, description and audio_path lists and an empty text list. |
| ParserTranscribe.VideoInfoFile.DownloadAudioTrack | data_pipelines/parser_transcribe.py:79-103 | the file's records become those of the append step, and the returned path is the new record's audio path whether or not it was appended |
| ParserTranscribe.Basename | data_pipelines/parser_transcribe.py:178 | `os.path.basename` is the suffix after the last `/`, with no `/` in it |
| ParserTranscribe.OutputPattern | data_pipelines/parser_transcribe.py:184 | the pattern's base name is the file name minus its 4-character extension, followed by `_segment%03d.mp3` |
| ParserTranscribe.BasenameOfJoin | data_pipelines/parser_transcribe.py:184-193 | the base name of `os.path.join(dir, name)` is `name` |
| ParserTranscribe.SortLexShape | data_pipelines/parser_transcribe.py:189 | `sorted` gives the same names, each as often, in Python's string order |
| ParserTranscribe.SortedLexUnique | data_pipelines/parser_transcribe.py:189 | two sorted arrangements of the same names are equal |
| ParserTranscribe.SegmentFilesShape | data_pipelines/parser_transcribe.py:189 | `ParserTranscribe.SegmentFiles` models the sorted segment listing. The segment files are exactly the listed names starting with the stem and `_segment`, in sorted order, and no other sorted order of them exists |
| ParserTranscribe.RetryIsFirstSuccess | data_pipelines/parser_transcribe.py:160-175 | `ParserTranscribe.Retry` models the retry loop. The loop makes at most `max_attempts` calls. The outcome is the first successful attempt. It times out exactly when all `max_attempts` calls fail. |
| ParserTranscribe.TranscribeWithWhisper | data_pipelines/parser_transcribe.py:160-175 | the loop's outcome and call count are those of the retry specification; it sleeps once after each failed call but the last; `None` when `max_attempts <= 0` |
| ParserTranscribe.TranscribeSegments | data_pipelines/parser_transcribe.py:191-195 | it gives the segments' transcriptions in order, or the timeout of the first segment whose every attempt failed |
| ParserTranscribe.TranscribeAllOrTimeout | data_pipelines/parser_transcribe.py:191-195 | without a timeout every segment has a transcription exactly when `max_attempts > 0` |
| ParserTranscribe.UpdateTextOnlyFirst | data_pipelines/parser_transcribe.py:202-205 | `ParserTranscribe.UpdateText` models the update loop. Only the first record with the audio path changes, and only its text; with no such record nothing changes |
| ParserTranscribe.VideoInfoFile.SetText | data_pipelines/parser_transcribe.py:202-205 | the loop with `break` leaves the records of the first-match update, or fails on an empty audio path list read first |
| ParserTranscribe.VideoInfoFile.GetTranscribe | data_pipelines/parser_transcribe.py:177-208 | `ParserTranscribe.Transcribe` models `_get_transcribe`, and the method is proved equal to it. An unsupported extension changes nothing. Otherwise the sorted segment files are transcribed and the records become those of the first-match update. On a timeout or an error the records are unchanged. |
| ParserTranscribe.VideoInfoFile.GetTranscribeVideo | data_pipelines/parser_transcribe.py:210-213 | download and then transcription, with the records and the error of the two steps in turn |
| ParserTranscribe.ProcessVideoRecords | data_pipelines/parser_transcribe.py:88-205 | `ParserTranscribe.ProcessVideo` models `get_transcribe_video` (lines 210-213). A new video whose transcription succeeds is appended, no url changes, and its segments' transcriptions go to the first record with its audio path: the appended record when no earlier record has that path, otherwise the earlier record, and the appended one keeps an empty text list |
| ParserTranscribe.ProcessVideoUpdate | data_pipelines/parser_transcribe.py:88-205 | for a new video without a timeout, the outcome is the append followed by the first-match text update, its records on success and its error otherwise |
| ParserTranscribe.AppendThenUpdate | data_pipelines/parser_transcribe.py:202-205 | after appending a record with the audio path, the update succeeds; it changes the appended record alone when no earlier record has the path, otherwise the first earlier one alone; no url changes |
| IndexPipeline.DownloadUrlsShape | data_pipelines/index_pipeline.py:51-52 | `IndexPipeline.DownloadUrls` models `_get_download_urls`. The urls are exactly the stripped non-blank lines, none blank or padded, at most one per line |
| IndexPipeline.DownloadUrlsAppend | data_pipelines/index_pipeline.py:52 | lines are read in order |
| IndexPipeline.DownloadUrlsIdempotent | data_pipelines/index_pipeline.py:52 | a file holding the urls one per line reads back as the same list |
| IndexPipeline.SelectRecords | data_pipelines/index_pipeline.py:90-94 | `IndexPipeline.Select` models the selection loops. The nested loops compute the selection, or fail on a record without a url |
| IndexPipeline.SelectionCount | data_pipelines/index_pipeline.py:90-94 | a record is selected once for every time its url is listed and every time it occurs in the file: duplicates in either input are kept |
| IndexPipeline.SelectionShape | data_pipelines/index_pipeline.py:91-94 | every selected record has a first url among the new videos and comes from the file; selection goes url by url |
| IndexPipeline.BuildDocuments | data_pipelines/index_pipeline.py:97-103 | one document per record with text, url and title from the first elements; a record missing one fails at the first such record |
| IndexPipeline.IndexDocumentsFromNewVideos | data_pipelines/index_pipeline.py:90-103 | `IndexPipeline.IndexDocuments` models the selection and the document list. Every inserted document comes from a file record of a new video and carries its url and text |
| IndexPipeline.VideosToProcess | data_pipelines/index_pipeline.py:116-119 | none when the file has no url, only the first in test mode, all otherwise |
| ParserTranscribe.ProcessVideoKeepsUrls | data_pipelines/parser_transcribe.py:88-205 | whatever happens to one video, no existing record's url changes and at most the video's own record, with its one url, is added |
| ParserTranscribe.UpdateTextKeepsUrls | data_pipelines/parser_transcribe.py:202-205 | the text update keeps the record count and every url |
| IndexPipeline.ProcessAllKeepsUrls | data_pipelines/index_pipeline.py:59-63 | over all the urls, successful or not, no existing record's url changes, the file grows by at most one record per url, and every added record has the single url yt-dlp reported for one of the urls |
| IndexPipeline.TranscribeVideos | data_pipelines/index_pipeline.py:59-63 | `IndexPipeline.ProcessAll` models `_transcribe_videos`, and the method is proved equal to it. Each url in turn is downloaded and transcribed, stopping at the first error |
| IndexPipeline.Run | data_pipelines/index_pipeline.py:114-124 | run transcribes the videos to process, then appends their documents to the index; each failure is reported as the step's error |
| IndexPipeline.RunScope | data_pipelines/index_pipeline.py:116-124 | an empty url file changes nothing and indexes nothing; in test mode only the first url's documents are indexed |
| Text.WordsStrip | scripts/prepare_chunks.py:23 | stripping a text keeps its words |
| Text.StripShape | scripts/prepare_chunks.py:23 | `Text.Strip` models `str.strip()`. `strip()` leaves no whitespace at either end and never lengthens the text |
| Text.StripIdempotent | scripts/prepare_chunks.py:23 | stripping twice is stripping once |
| Text.StripEmptyIff | app/utils.py:24 | a text strips to `""` exactly when it is all whitespace |
| Text.WordsAppend | scripts/prepare_chunks.py:21-32 | `Text.Words` models `str.split()`. `split()` of two texts separated by whitespace is the concatenation of their splits |
| Text.WordsOfJoin | scripts/clean_transcripts.py:20 | splitting words joined by `" "` gives the words back |

## Left out

- Telegram plumbing is left out: the handlers other than the mention stripping, the message queue, `keep_typing`, polling, and the timeout messages of `handle_tag` (app/app.py:70-101, 191-243).
- The language model, the retriever, the embeddings and the vector index are inputs to the model. This covers `query_engine.aquery`, `client.chat.completions.create`, `index.insert`, `persist` and `load_index_from_storage`. `Run` models the index as the list of documents inserted into it.
- App.Answer: the prompt texts `context_prompt` and `evaluate_promt`, and the reply-mode `message` sent to the model, are not built. The model's replies to them are parameters.
- Mystem lemmatisation, the stopword download and BM25 `get_scores` are parameters. `preprocess_text` is modelled from the lemmatised tokens on.
- Ranking.PredictWithTrainedModel: numpy's argsort order among equal scores is left open. Any argsort is allowed, and the top three are stated only up to ties. Python's set order is also left open: the sort is a concrete one, and its contract states only order-independent facts. The scores are reals. A double compared with `> 6.6` gives the same answer as the real 33/5, because no double lies strictly between them.
- Ranking.PredictWithTrainedModel: the source turns each argsort index into a string (`str`, app/utils.py:56 and 59) and looks `links` up by that string, so the JSON keys are the decimal numerals of the indices. The model keys `links` by the number itself. `str` is injective on natural numbers, so the set's deduplication and the lookups are the same.
- App.LinkLines: the order of `"\n".join` over a Python set is unspecified. The model fixes one order: the node lines first, then the ranked lines, each line at its first occurrence. App.AnswerWithContext states the answer for that order. Only the facts of App.LinkLinesUnion, the set union without duplicates, hold for every order Python may choose.
- Regex: `\w` is modelled as ASCII letters, digits, `_`, the basic Cyrillic letters and the four letters İ, ı, ſ and the Kelvin sign. Python's full Unicode word class is not modelled, so a boundary next to another non-ASCII letter can differ. `re.IGNORECASE` is modelled for what the ASCII patterns can meet: the capitals, and İ and ı (with `i`), ſ (with `s`) and the Kelvin sign (with `k`), which are the only characters outside ASCII that Python folds with an ASCII letter.
- Ranking.PreprocessText: `isdigit` follows the Unicode 15.0 digit table of Python 3.12; another Python version's table can differ on newly added digits.
- yt-dlp, ffmpeg, `os.listdir`, `os.remove`, `os.path.exists` and the JSON and pickle reads and writes are I/O. The video info and the directory listing are parameters. The JSON file is the `records` field of `VideoInfoFile`.
- ParserTranscribe.TranscribeWithWhisper: only `APITimeoutError` is retried, as in the source. Any other exception from the call is not modelled. `time.sleep` is modelled only as a count of waits.
- CleanTranscripts.CleanTranscriptFiles: the `except Exception` clause is modelled only for a file that fails to load, which is then not counted. The writing back of the file is not modelled.
- Missing JSON keys (`KeyError` on `seg['text']`, `item["audio_path"]` and the like) are not modelled. The records always have every field, and only an empty list at a `[0]` read is an error.
- `MIN_CHUNK_WORDS` is declared but never used (scripts/prepare_chunks.py:4), so it has no counterpart.
- The module-level cleaning loop of scripts/clean_transcripts.py:55-64 runs against the file system on import and is not modelled.
- Logging and `print` are not modelled.
- app/custom_embedding.py, scripts/get_transcripts.py and scripts/get_metadata.py are not part of this model. They only wrap foreign services.
- `_get_video_info` (yt-dlp options and the result dictionary) is not modelled. Its result is the `VideoInfo` parameter.
