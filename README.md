# OptiBot content engine: scraper and uploader core in Dafny

This project models the two classes at the core of the OptiSigns help-center pipeline and proves what
they promise.

- `OptiSignsScraper` (`src/scraper.py`) takes the help-center articles and:
  - detects which are new, updated or unchanged against the previous run's metadata;
  - rewrites that metadata;
  - turns the new and updated articles into Markdown files named by a slug of their title.
- `OpenAIUploader` (`src/uploader.py`) then:
  - reuses or creates the OptiBot assistant;
  - uploads the changed files;
  - adds them to a vector store, polling the batch for at most 60 seconds;
  - binds the vector store to the assistant;
  - records the run in its config file.

Files, one module each:

| file | module | contents |
|---|---|---|
| `wrappers.dfy` | `Wrappers` | `Option` and `Result`. |
| `text.dfy` | `Text` | Python's `\w`, `\s`, `str.lower`, `str.strip`, `str.split`, `str.join` and `in` on ASCII characters. |
| `slug.dfy` | `Slug` | `generate_slug`. |
| `markdown.dfy` | `Markdown` | The line filter of `clean_html_to_markdown`, as a function and as the loop the source runs. |
| `scraper.dfy` | `Scraper` | Article records, the file layout, delta detection (`Bucket`, `CurrentMetadata`), the saving loop (`SavedFiles`), and the class `OptiSignsScraper`. |
| `uploader.dfy` | `Uploader` | The OpenAI client as an oracle (`Remote`), the request log, the poll (`PollEnd`), the whole `setup_assistant` run as a function (`SetupRun`), and the class `OpenAIUploader`. |

The two classes are classes here too:
- Their methods change the fields the Python methods change:
  - the stored metadata and the article directory;
  - `vector_store_id`, the config and the log of calls made to the client.
- Each method is proved equal to a specification function of the old state and its inputs.
- The lemmas state the properties of those functions.

Outside the model:
- The OpenAI client is a `Remote` value that fixes every answer in advance; `None` means the call raises.
- Every call the uploader makes is appended to `requests`. This makes "no call", "exactly one create" and "at most twenty retrieves" statable.
- The SHA-256 digest and the HTML-to-Markdown converter are function parameters.
- Whether a file write succeeds is a function of the article's position.
- The upload timestamp is a string parameter.

## Model

| member | source | states |
|---|---|---|
| Text.Lower | src/scraper.py:124 | `str.lower()`: same length, every character lowered. Lowering keeps word, space and hyphen characters what they were. |
| Text.IsSpace | src/scraper.py:108 | Python whitespace, as `str.strip()` and the regex class `\s` read it, over ASCII: space, tab, newline, carriage return, vertical tab, form feed and the four separators U+001C to U+001F. |
| Text.IsWordChar | src/scraper.py:124 | The regex class `\w` over ASCII: letters, digits and `_`. |
| Text.ToLower | src/scraper.py:124 | `lower()` of one character: the result is never upper-case, a character that is not upper-case is kept, and word, space and hyphen characters stay word, space and hyphen characters. |
| Text.Strip | src/scraper.py:108 | The stripped line is a slice of the line with only whitespace outside it. It neither starts nor ends with whitespace, and it is empty exactly when the line is all whitespace. |
| Text.StripKeepsOut | src/scraper.py:108 | Stripping adds no character: a newline absent from a line is absent from its stripped form. |
| Text.Split | src/scraper.py:104 | `split('\n')` returns at least one piece, and no piece contains the separator. |
| Text.JoinSplit | src/scraper.py:104-116 | Joining the pieces of a split with the separator gives back the text. |
| Text.Join | src/scraper.py:116 | `sep.join(parts)`: the parts with `sep` between neighbours, and `""` for no parts. |
| Text.Contains | src/scraper.py:112-113 | Python's `sub in s`: `sub` occurs at some index of `s`. |
| Text.SplitAtSeparator | src/scraper.py:104 | Splitting `a + sep + b` gives the pieces of `a` followed by the pieces of `b`. |
| Slug.RemoveNonSlugChars | src/scraper.py:124 | `re.sub(r'[^\w\s-]', '', s)`: every character that is not a word character, whitespace or a hyphen is dropped, and the rest keep their order. |
| Slug.IsSlugSource | src/scraper.py:124 | The characters the first substitution keeps, `[\w\s-]`: word characters, whitespace and `-`. |
| Slug.IsSeparator | src/scraper.py:125 | The characters whose runs the second substitution collapses, `[-\s]`: `-` and whitespace. |
| Slug.RemoveNonSlugCharsShape | src/scraper.py:124 | After `re.sub(r'[^\w\s-]', '', ...)` on lowered text, only word, space and hyphen characters remain. Its word characters are those of the input, in order. |
| Slug.CollapseSeparators | src/scraper.py:125 | `re.sub(r'[-\s]+', '-', s)`: each maximal run of hyphens and whitespace becomes one hyphen. The result is empty exactly when the input is, and starts with the input's first character when that is not a separator. |
| Slug.CollapseSeparatorsShape | src/scraper.py:125 | After collapsing `[-\s]+` to `-`: only lower-case word characters and hyphens remain, never two hyphens in a row, and the word characters are those of the input, in order. |
| Slug.TrimHyphens | src/scraper.py:126 | `s.strip('-')`: the leading hyphens, then the trailing hyphens, removed. |
| Slug.TrimHyphensCutsHyphens | src/scraper.py:126 | `strip('-')` removes hyphens from the two ends only: the result is a slice of the text with nothing but hyphens outside it. |
| Slug.TrimHyphensShape | src/scraper.py:126 | `strip('-')` of collapsed text has no leading and no trailing hyphen and no `--`. Its word characters are those of the text, in order, so it is empty exactly when the text has no word character. |
| Slug.Words | src/scraper.py:125 | The words of a text: its maximal runs of characters other than hyphens and whitespace, in order. Each word is non-empty and holds no separator, and a text starting with a non-separator has at least one word. |
| Slug.NoWordsAllSeparators | src/scraper.py:125 | A text without words is hyphens and whitespace only. |
| Slug.WordsAfterSkip | src/scraper.py:125 | Dropping a leading run of separators keeps the words. |
| Slug.CollapseIsJoinedWords | src/scraper.py:125 | `re.sub(r'[-\s]+', '-', s)` is the words of `s` joined by single hyphens, with one more hyphen in front when `s` starts with a separator and one more at the end when `s` ends with separators after a word. |
| Slug.JoinedWordsHaveNoOuterHyphen | src/scraper.py:125-126 | Words joined by hyphens neither start nor end with a hyphen. |
| Slug.TrimOuterHyphens | src/scraper.py:126 | `strip('-')` removes exactly one optional hyphen at either end of hyphen-joined words. |
| Slug.CollapseAndTrimJoinsWords | src/scraper.py:125-126 | Collapsing the separators and then stripping hyphens gives the words joined by single hyphens. |
| Slug.NormalizeTitle | src/scraper.py:123-126 | The uncut slug is the words of the lowered title, after the first substitution, joined by single hyphens (`Words`); so `"Hello World"` gives `hello-world`. It is lower-case word characters and hyphens, with no leading or trailing hyphen and no `--`. Its word characters are the title's, lowered and in order, so it is empty exactly when the title has no word character. |
| Slug.GenerateSlug | src/scraper.py:118-128 | An empty title gives `"untitled"`. Any other title gives the words of the lowered title joined by single hyphens, cut to its first 50 characters: a prefix of that join, of the join's length when it fits and of length 50 otherwise. That slug is lower-case word characters and hyphens, no leading hyphen, no `--`. It is `""` exactly when the title has no word character, so punctuation alone gives `""`, not `"untitled"`. |
| Slug.TrailingHyphenOnlyFromCut | src/scraper.py:126-128 | A slug that ends in a hyphen comes from a title whose uncut slug is longer than 50 characters: only the cut can leave a trailing hyphen. |
| Slug.SlugKeepsTitleWords | src/scraper.py:123-128 | The slug's word characters are a prefix of the title's, lowered and in order, and all of them when the uncut slug fits in 50 characters. |
| Slug.SingleWordSlug | src/scraper.py:118-128 | A title of one word of at most 50 word characters slugs to that word lower-cased. |
| Slug.TwoWordTitle | src/scraper.py:124-126 | Two lower-case words separated by a space normalize to the words joined by one hyphen. |
| Slug.TrailingHyphenSurvivesCut | src/scraper.py:125-128 | The 50-character cut happens after the hyphen strip. A 49-character word, a space and another word therefore slug to the word followed by a trailing `-`. |
| Slug.UntitledSlug | src/scraper.py:132-137 | The default title `"Untitled"` slugs to `"untitled"`. |
| Markdown.KeepLine | src/scraper.py:110-113 | The filter's four tests on a stripped line: non-empty, not starting with `*`, and neither "navigation" nor "advertisement" in its lower-cased form. |
| Markdown.CleanLines | src/scraper.py:107-114 | The stripped lines that pass `KeepLine`, in order. |
| Markdown.MapFilter | src/scraper.py:107-114 | `[f(x) for x in xs if keep(f(x))]`: the images of the elements that pass the test, in input order. |
| Markdown.CleanedMarkdown | src/scraper.py:95-116 | `""` for an empty body. Otherwise the converter's output is split at newlines, filtered by `CleanLines` and joined with `"\n\n"`. |
| Markdown.CleanLinesMembership | src/scraper.py:107-114 | A line is kept exactly when it is the stripped form of an input line and it is non-empty, does not start with `*`, and contains neither "navigation" nor "advertisement" in any letter case. |
| Markdown.MapFilterMembership | src/scraper.py:107-114 | An element is in the mapped-and-filtered list exactly when it is the image of some input element and passes the filter. |
| Markdown.CleanLinesAreClean | src/scraper.py:104-114 | Every kept line is non-empty, holds no newline, has no surrounding whitespace and does not start with `*`. |
| Markdown.JoinCleanLines | src/scraper.py:116 | Joining clean lines with `"\n\n"` gives text with no three newlines in a row and no surrounding whitespace. The text is empty exactly when no line was kept. |
| Markdown.CleanedTextReadsBack | src/scraper.py:116 | Splitting the joined text at newlines and dropping the blank pieces gives back exactly the kept lines, in order. |
| Markdown.CleanedMarkdownShape | src/scraper.py:95-116 | The cleaned Markdown has no run of three newlines and no surrounding whitespace. For a non-empty body, reading it back line by line without the blank lines gives the filtered lines of the converter's output. |
| Markdown.CleanHtmlToMarkdown | src/scraper.py:95-116 | The loop computes the cleaned Markdown (`""` for an empty body) and has all the properties above. |
| Scraper.Article.Title | src/scraper.py:132 | `article.get('title', 'Untitled')`: the record's title, or `"Untitled"` when the key is missing. |
| Scraper.Article.UpdatedAt | src/scraper.py:176 | `article.get('updated_at', '')`: the record's timestamp, or `""` when missing. |
| Scraper.Article.Body | src/scraper.py:133 | `article.get('body', '')`: the record's HTML body, or `""` when missing. |
| Scraper.Article.Url | src/scraper.py:134 | `article.get('html_url', '')`: the record's URL, or `""` when missing. |
| Scraper.ArticleContent | src/scraper.py:145-149 | The saved file's text: `# <title>`, a blank line, the Markdown, a blank line, then `Article URL: <url>`. |
| Scraper.ArticleContentLines | src/scraper.py:145-149 | When the title and URL have no newline, the saved file's first line is `# <title>` and its last line is `Article URL: <url>`, whatever the Markdown. |
| Scraper.FileName | src/scraper.py:137-138 | The file name ends in `.md`. |
| Scraper.FileFor | src/scraper.py:238-244 | The processed-file record carries the article's id and its title as given, and its file name ends in `.md`. |
| Scraper.UntitledFile | src/scraper.py:132-138 | An article without a title is saved as `untitled.md`. |
| Scraper.SavedFiles | src/scraper.py:236-254 | The records of the processed articles whose write succeeds, in order. An article whose save raises is skipped. |
| Scraper.WriteAll | src/scraper.py:152-153 | The article directory after the files are written in order. A later file with the same name replaces an earlier one. |
| Scraper.SavedFilesAreTheSuccesses | src/scraper.py:236-254 | The scrape keeps at most one record per processed article. Every record is that of an article whose write succeeded. |
| Scraper.SavedFilesIncludeTheSuccesses | src/scraper.py:236-244 | Conversely, every article whose write succeeds has its record among the saved files. |
| Scraper.AllSavesSucceed | src/scraper.py:236-254 | When every write succeeds, there is one record per processed article, in order. |
| Scraper.SavedFilesAppend | src/scraper.py:218-254 | Saving `new + updated` saves the files of the new articles first, then those of the updated ones. |
| Scraper.PrefixSlice | src/scraper.py:167 | Python's `s[:n]`: the first `n` elements, or all of `s` when `n` is larger. For a negative `n`, the first `|s| + n`, or none when that is negative. |
| Scraper.Considered | src/scraper.py:165-167 | The considered articles are a prefix of the input. `None` or a limit of 0 considers all of them. A positive limit considers `min(limit, n)`. A negative limit follows Python slicing. |
| Scraper.Classify | src/scraper.py:190-196 | New when the id is not in the previous metadata. Updated when its stored `content_hash` is missing or differs from the hash of the body. Unchanged otherwise. |
| Scraper.Bucket | src/scraper.py:169-196 | The considered articles classified as one kind, in source order. |
| Scraper.FilterMembership | src/scraper.py:173-196 | An element is in a filtered list exactly when it is in the input and passes the filter. The filter is the line filter's map-and-filter with nothing mapped. |
| Scraper.FilterAppend | src/scraper.py:173-196 | Filtering respects concatenation, so each bucket keeps source order. |
| Scraper.BucketMembership | src/scraper.py:190-196 | An article is in a bucket exactly when it was considered and classified that way. Classification: id not stored, New; stored hash different or missing, Updated; equal, Unchanged. |
| Scraper.PartitionIsTotal | src/scraper.py:169-196 | The three bucket sizes sum to the number considered. As multisets, the buckets sum to the considered articles. |
| Scraper.BucketAround | src/scraper.py:173-196 | The bucket of `before + [x] + after` is that of `before`, then `x` when it belongs, then that of `after`. |
| Scraper.MetaFor | src/scraper.py:183-188 | The metadata entry of an article: its title, `updated_at`, the hash of its body and the slug of its title. |
| Scraper.IndexById | src/scraper.py:183 | `current_metadata[article_id] = ...` in a loop: each id of the articles maps to the entry of the last article with that id. |
| Scraper.CurrentMetadata | src/scraper.py:163-188 | One entry per considered id, the last article with that id winning. |
| Scraper.CurrentMetadataDescribesConsidered | src/scraper.py:163-188 | The new metadata's keys are exactly the considered ids, so the entries of other ids are dropped. The entry of an id is the title, `updated_at`, body hash and slug of the last considered article with that id. |
| Scraper.FirstRunAllNew | src/scraper.py:190-196 | With no stored metadata, every considered article is new. |
| Scraper.RerunFindsNoChanges | src/scraper.py:173-199 | With distinct ids, rerunning on the metadata the run wrote finds nothing new or updated and everything unchanged. |
| Scraper.OneEditIsUpdated | src/scraper.py:190-196 | Changing one article's body to one with a different hash makes that article alone updated. All the others stay unchanged, in order. |
| Scraper.OptiSignsScraper.constructor | src/scraper.py:17-29 | The scraper starts with the hash, the converter, the loaded metadata and the article directory it is given. |
| Scraper.OptiSignsScraper.DetectChanges | src/scraper.py:157-201 | The loop returns the New, Updated and Unchanged buckets of the considered articles against the old metadata. It replaces the metadata by `CurrentMetadata` of the considered articles. |
| Scraper.OptiSignsScraper.SaveArticle | src/scraper.py:130-155 | A successful write returns the slug file name and the formatted content, and stores them in the directory. A failed write returns nothing and changes nothing. |
| Scraper.OptiSignsScraper.SaveChangedArticles | src/scraper.py:235-254 | The loop returns `SavedFiles` of the processed articles. The directory is the old one with those files written in order. |
| Scraper.OptiSignsScraper.ScrapeArticles | src/scraper.py:203-266 | No articles: all counts 0, no files, nothing changed. Otherwise the counts are the bucket sizes whatever the writes do. The files are `SavedFiles(new + updated)`, the metadata is rewritten, and the directory holds the saved files. |
| Uploader.OpenAIUploader.constructor | src/uploader.py:15-23 | The uploader keeps the given vector store id (`None` when none was given) and the loaded config. It has made no call, and its instructions are the OptiBot system prompt. |
| Uploader.Truthy | src/uploader.py:182-186 | Python truthiness as `if not x:` reads it: `None`, `False`, `0` and `""` are false. |
| Uploader.Get | src/uploader.py:179-183 | `config.get(key)`: the stored value, or `None` for a missing key. |
| Uploader.CreateRequest | src/uploader.py:53-58 | The create call: name `OptiBot`, the given instructions, model `gpt-4o-mini`. |
| Uploader.TempName | src/uploader.py:81 | The uploaded temporary file is named `temp_<filename>`. |
| Uploader.UploadRequests | src/uploader.py:87-90 | One upload call per file, in order, of its `temp_` name and content. |
| Uploader.OpenAIUploader.CreateAssistant | src/uploader.py:43-61 | Exactly one create call, with name `OptiBot`, the system prompt and model `gpt-4o-mini`. It returns the new id, or nothing when the call raises. |
| Uploader.OpenAIUploader.UploadFiles | src/uploader.py:63-105 | One upload call per file, in order, of its `temp_` file with its content, and no call for no files. It returns the ids of the uploads that succeeded, in order. |
| Uploader.UploadedIds | src/uploader.py:71-102 | The ids of the uploads that succeed, in file order. |
| Uploader.UploadedIdsComeFromSuccesses | src/uploader.py:71-102 | There are at most as many ids as files, and each id is that of an upload that succeeded. |
| Uploader.UploadedIdsIncludeTheSuccesses | src/uploader.py:73-91 | Conversely, the id of every upload that succeeds is among the returned ids. |
| Uploader.AllUploadsSucceed | src/uploader.py:71-102 | When every upload succeeds, the ids are all there, in file order. |
| Uploader.UploadCreatesNoAssistant | src/uploader.py:73-98 | Uploading makes no create call and no vector-store call. |
| Uploader.PollEnd | src/uploader.py:124-138 | The poll from a status after `waited` seconds. It stops once the status is neither `in_progress` nor `queued`, or 60 seconds have passed. Otherwise it waits 3 seconds and retrieves, stopping with the status seen before when the retrieve raises. It returns the last status and `waited`. |
| Uploader.Retrieves | src/uploader.py:131-134 | `count` status retrieves of the batch in the current vector store: exactly `count` calls, each of them that retrieve. |
| Uploader.PollIsBounded | src/uploader.py:124-138 | The poll ends with `waited` a multiple of 3 no greater than 60, so after at most twenty retrieves. It stops only for one of three reasons: the status settled, 60 was reached, or the last retrieve raised. |
| Uploader.PollStopsOnFirstSettledAnswer | src/uploader.py:127-135 | When the retrieves answer pending statuses until a settled one, the poll ends at that answer and reports it. |
| Uploader.PollStopsOnError | src/uploader.py:130-138 | A retrieve that raises ends the poll there, with the pending status seen before it. |
| Uploader.OpenAIUploader.PollBatch | src/uploader.py:124-138 | The loop makes one retrieve per step and returns the poll's last status. |
| Uploader.OpenAIUploader.AttachToVectorStore | src/uploader.py:107-149 | The result is True exactly when the last status seen is `completed`. The calls are the batch creation and the retrieves of the poll. With no uploaded files or no vector store id, it makes no call and returns False. |
| Uploader.AttachSucceeds | src/uploader.py:107-149 | When `attach_to_vector_store` returns True: there are files and a vector store id, the batch is created, and the last status polled is `completed`. |
| Uploader.AttachRequests | src/uploader.py:107-149 | The calls of `attach_to_vector_store`: none under the guard. Otherwise the batch creation and, when it succeeds, one retrieve per poll step. |
| Uploader.AttachRequestsBounded | src/uploader.py:107-149 | The attach makes no call exactly when there are no uploaded files or no vector store id. Otherwise it makes at most 1 + 60/3 calls, all on the vector store, and creates no assistant. |
| Uploader.OpenAIUploader.AttachVectorStoreToAssistant | src/uploader.py:151-171 | With no vector store id, no call and False. Otherwise one update binding the store to the assistant, and True exactly when it succeeds. |
| Uploader.RecordRun | src/uploader.py:207-214 | `config.update`: the five run keys are added or overwritten with the run's values, and every other key is kept. |
| Uploader.SetupRun | src/uploader.py:173-215 | One `setup_assistant` run. It resolves the vector store id and reuses the stored assistant or creates one, failing when the creation raises. Then it finishes as `FinishRun`. |
| Uploader.FinishRun | src/uploader.py:192-215 | For a known assistant: the upload, the two attach steps under their guard, and the config update. |
| Uploader.BothAttached | src/uploader.py:195-213 | `vector_store_attachment_success`: both attach steps ran and both returned True. |
| Uploader.AttachStepRequests | src/uploader.py:198-203 | The calls of the two attach steps: the attach calls and then the assistant update, made only when there are uploaded files and a truthy vector store id; no call otherwise. |
| Uploader.OpenAIUploader.SetupAssistant | src/uploader.py:173-231 | The method's result, vector store id, config and calls are those of `SetupRun` for the old id and config. |
| Uploader.OpenAIUploader.UploadAndRecord | src/uploader.py:192-215 | Once the assistant is known: upload, the attach steps, and the config update, as `FinishRun`. |
| Uploader.OpenAIUploader.AttachSteps | src/uploader.py:195-203 | Both attach calls happen only with uploaded files and a vector store id. The assistant is bound even when the batch failed. The result is the conjunction of the two. |
| Uploader.VectorStoreResolution | src/uploader.py:182-183 | A truthy vector store id given to the constructor wins. Otherwise the config's id is used. |
| Uploader.ReusesOrCreatesAssistant | src/uploader.py:179-190 | A stored assistant id is reused and returned, and no assistant is created. Otherwise the first call creates exactly one assistant, before any upload. The run returns its id, or fails when the creation raises. |
| Uploader.SetupRunFinishes | src/uploader.py:186-215 | A successful run is the upload-attach-record sequence for its assistant, preceded by the creation call when none was stored. |
| Uploader.FinishAttaches | src/uploader.py:193-203 | With uploaded files and a vector store id, the batch creation and the assistant update are both made. Otherwise no call touches the vector store. |
| Uploader.AttachOnlyWithUploadsAndStore | src/uploader.py:198-203 | The same holds for the whole run: both attach steps exactly when a file was uploaded and a vector store id is set, and the update even when the batch failed. |
| Uploader.SuccessfulRunSavesConfig | src/uploader.py:207-215 | After a successful run, the config keeps every other key and records the assistant id, the vector store id, the time and the number uploaded. `vector_store_attachment_success` is set exactly when both attach steps ran and succeeded. |
| Uploader.SecondRunReusesAssistant | src/uploader.py:179-214 | Provided the first run succeeded and the assistant id the client gave it, if it created one, is not `""`: a second run on the config the first saved returns the same assistant and vector store and creates no assistant. An empty created id is falsy, so the second run would create a new assistant (uploader.py:186). |

## Left out

- Text.Lower and the `Text` character classes cover ASCII only. Python's Unicode `\w`, `\s`, `lower()` and `strip()` classify and map more characters.
- `get_all_articles` (the paginated HTTP fetch, its session, auth and rate limiting) is network I/O. The fetched articles are a parameter of `ScrapeArticles`.
- `calculate_content_hash` (SHA-256) is an opaque function of the body. It is not assumed collision-free, so `OneEditIsUpdated` requires the two hashes to differ.
- `markdownify` is a foreign library. It is a function parameter; only the line filter on its output is modelled.
- Loading and saving `article_metadata.json` and `optibot_config.json` are not modelled:
  - a load is the map the class is constructed with (empty when the file is missing or unreadable);
  - a save is the new field value;
  - a failed save, JSON `null` values and a config that is not a JSON object are not modelled.
- Scraper.OptiSignsScraper.SaveArticle takes whether its write succeeds as a boolean parameter. Any exception in `save_article` is a failed write, and the message printed for it is not modelled.
- Scraper.OptiSignsScraper.SaveChangedArticles and Scraper.OptiSignsScraper.ScrapeArticles take the write outcomes as a flag per position in the articles processed.
- Scraper.OptiSignsScraper.SaveArticle models a failed write as atomic: the directory is left unchanged. In the source, `open(filepath, 'w')` creates or truncates the file before `f.write` runs, so a failure can leave an empty or partial file, possibly over an earlier file with the same slug.
- Scraper.OptiSignsScraper.SaveChangedArticles states the directory as the old one with only the saved files written, so it too treats a failed write as atomic.
- Scraper.OptiSignsScraper.ScrapeArticles states the directory in the same way, so it too treats a failed write as atomic.
- Scraper.OptiSignsScraper.DetectChanges does not model article fields whose JSON value is `null`: a field either holds a string or is missing. In the source, a `null` body makes `calculate_content_hash` raise, and nothing catches it, so the whole scrape aborts.
- Scraper.OptiSignsScraper.SaveArticle does not model a `null` title either. In the source it slugs to `untitled`, but the file's heading reads `# None`.
- Uploader.OpenAIUploader.UploadFiles takes each file's outcome from an oracle indexed by the file's position:
  - `None` when writing the temporary file or the upload raises;
  - the new id when the upload succeeds, even if removing the temporary file raises afterwards, since the source has already kept the upload by then.
- Uploader.OpenAIUploader.UploadFiles logs an upload call for every file. That includes a file whose temporary file could not be written, for which the source makes no call.
- Uploader.OpenAIUploader.UploadFiles does not model the temporary file's removal, or a temporary file left behind when a later step raises.
- Article ids are strings. `str(article.get('id'))` of a missing id is not modelled.
- The constructor's check for `OPENAI_API_KEY` and the client construction are not modelled.
- `time.sleep` is not modelled. The poll's clock is the `waited` counter, which is what bounds the loop in the source too.
- `datetime.now()` is the `now` parameter.
- The status messages, the summary and the file-id listing printed by `setup_assistant` are output only, as is all other `print` logging.
- The system prompt is carried as the constant `SystemPrompt`. The uploader's `instructions` field is set to it, and the specification functions take the instructions as a parameter.
- The `file_search` tool of the created assistant is not modelled.
- `get_file_ids_for_manual_attachment` always returns `[]` and is not modelled.
- `main.py` is orchestration only and is not part of this model.
