# YouTube comments analyser: the deterministic core, in Dafny

The analyser fetches every comment of a YouTube video, cleans each one, cuts the
list into batches of 20, and asks an LLM agent for themed insights on each batch.
It repairs trailing commas in the JSON text the agent returns and appends each
parsed result to a result store. At the end it merges all stored results into
one report with six fixed themes: Requests, Complaints, Suggestions, Praise,
Troubleshooting and Other.

This project models the deterministic routines of `analyzer.py` and proves what
they guarantee:

- `text.dfy`, module `Text`: Python's whitespace class (`str.isspace`, the `\s` of
  a `str` regex, the set `strip()` removes) and the greedy whitespace run.
- `batcher.dfy`, module `Batcher`: `split_comments`, as the list comprehension over
  `range(0, len, chunk_size)` with Python's clamping slice.
- `json_repair.dfy`, module `JsonRepair`: `fix_trailing_commas`, two `re.sub` passes,
  each a left-to-right, leftmost, non-overlapping scan.
- `sanitizer.dfy`, module `Sanitizer`: `clean_escape_characters`, ten fixed-length
  `re.sub` rewrites, the whitespace collapse and `strip()`.
- `video_id.dfy`, module `VideoId`: `extract_video_id`, a search for the first
  position holding `v=` or `/` followed by eleven `[0-9A-Za-z_-]` characters.
- `json.dfy`, module `Json`: the JSON values `json.loads` returns.
- `merger.dfy`, module `Merger`: the bucket fold of `merge_results`. It is given
  twice: as a specification function `Merge`, and as the nested loops over a
  local map that the source runs (`MergeEntries`). It is also checked against an
  independent per-theme description (`Contribution`).
- `pipeline.dfy`, module `Pipeline`: the class `CommentsAnalysis`. It holds the
  result store and the final report as fields, and has the methods
  `append_result_to_json`, `merge_results` and `run`. The LLM call
  (`crew.kickoff`) and `json.loads` are function parameters.
- `wrappers.dfy`, module `Wrappers`: `Option`.

Behaviour of analyzer.py that the model keeps and that a reader might not
expect:

- An exception from `crew.kickoff` is not caught inside the chunk loop. It reaches
  the handler at the end of `run`, so the remaining chunks and the merge are
  skipped. Only a `JSONDecodeError` is per-chunk and non-fatal.
- A chunk is parsed twice. `run` repairs and parses the text. On success,
  `append_result_to_json` repairs the repaired text again and parses it, and
  stores that second parse. The repair is not idempotent (`,,]` becomes `,]` and
  then `]`), so what is stored can differ from what was checked.
- A member that is not a list under a theme key goes to `Other` through
  `list.extend`:
  - a string adds its characters;
  - an object adds its keys;
  - a number, boolean or null raises `TypeError`. The whole merge is then
    abandoned and no report is written.
- Theme keys are matched case-sensitively: `requests` goes to Other.
- The repair also rewrites commas inside JSON string literals. It works on text
  and knows nothing of JSON syntax.

## Model

| member | source | states |
|---|---|---|
| Text.SpaceRun | analyzer.py:212 | the greedy `\s*` run: everything before it is whitespace, the character after it is not |
| Batcher.SplitCommentsFlatten | analyzer.py:184-186 | concatenating the chunks in order gives back exactly the comment list |
| Batcher.SplitCommentsShape | analyzer.py:186 | there are ceil(N/K) chunks and chunk j is the slice `comments[j*K : j*K+K]` |
| Batcher.SplitCommentsLengths | analyzer.py:184-186 | empty input gives no chunks; every chunk but the last has K comments, the last 1..K |
| JsonRepair.SubTrailingDeletesOnly | analyzer.py:212 | one `re.sub` pass only deletes commas and whitespace |
| JsonRepair.FixTrailingCommasDeletesOnly | analyzer.py:210-214 | the repair only deletes commas and whitespace; every other character survives in order |
| JsonRepair.DeletesOnlyTrans | analyzer.py:212-213 | deleting commas and whitespace twice is deleting them once (the two passes compose) |
| JsonRepair.DeletesOnlyKept | analyzer.py:210-214 | such a deletion keeps the non-comma, non-whitespace characters in order and never lengthens |
| JsonRepair.SubTrailingUnchanged | analyzer.py:212 | one pass returns its input unchanged exactly when the input holds no match |
| JsonRepair.FixTrailingCommasUnchanged | analyzer.py:210-214 | the repair returns its input unchanged exactly when it holds no `,\s*]` and no `,\s*}` |
| JsonRepair.SubTrailingRemovesComma | analyzer.py:212-213 | when the text's first comma is followed by whitespace and the closing character, one pass replaces the three by that character and rewrites what comes after as if it stood alone |
| JsonRepair.FixTrailingCommasRemovesComma | analyzer.py:210-214 | when the text's first comma is trailing before `]` or `}`, the repair removes it with its whitespace and repairs what comes after as if it stood alone |
| JsonRepair.SubTrailingKeepsComma | analyzer.py:212-213 | a comma that starts no match survives a pass, and what follows it is rewritten as if it stood alone |
| JsonRepair.FixTrailingCommasKeepsComma | analyzer.py:210-214 | a comma followed (after whitespace) by neither `]` nor `}` survives the repair, and what follows it is repaired as if it stood alone |
| JsonRepair.FixTrailingCommasCommaFree | analyzer.py:210-214 | a stretch without commas passes through the repair untouched, and what follows it is repaired as if it stood alone; with the KeepsComma and RemovesComma lemmas this settles the result of every text, front to back |
| JsonRepair.FixTrailingCommasListExample | analyzer.py:210-214 | `[1, 2,]` is repaired to `[1, 2]`: the first comma is kept and the trailing one removed |
| JsonRepair.FixTrailingCommasExample | analyzer.py:210-214 | `{"a": [1,2,],}` is repaired to `{"a": [1,2]}` |
| JsonRepair.FixTrailingCommasNotIdempotent | analyzer.py:210-214 | `,,]` repairs to `,]`, which repairs again to `]`: the repair is not idempotent |
| Sanitizer.SubChars | analyzer.py:69-78 | a rewrite produces only characters of its input or of its replacement |
| Sanitizer.SubDeletesChar | analyzer.py:77-78 | deleting a single character leaves no occurrence of it |
| Sanitizer.SubShorter | analyzer.py:69-78 | a rewrite whose replacement is no longer than its pattern never lengthens the text |
| Sanitizer.SubAbsent | analyzer.py:69-78 | a rewrite whose pattern starts with a character absent from the text changes nothing |
| Sanitizer.DropEscapesResult | analyzer.py:69-78 | after the escape rewrites no backslash and no double quote remains, and the text did not grow |
| Sanitizer.DropEscapesIdentity | analyzer.py:69-78 | text without backslashes and double quotes passes the escape rewrites unchanged |
| Sanitizer.DropEscapesPrefix | analyzer.py:69-78 | text without `\` and `"` passes the escape rewrites unchanged, and what follows it is rewritten as if it stood alone |
| Sanitizer.DropEscapesShortUnicode | analyzer.py:69 | `\u` followed by four hex digits is removed, and the text after it is rewritten as if it stood alone |
| Sanitizer.DropEscapesLongUnicode | analyzer.py:70 | `\U` followed by eight hex digits is removed, and the text after it is rewritten as if it stood alone |
| Sanitizer.DropEscapesNewline | analyzer.py:71 | a literal `\n` becomes one space, and the text after it is rewritten as if it stood alone |
| Sanitizer.DropEscapesTab | analyzer.py:72 | a literal `\t` becomes one space, and the text after it is rewritten as if it stood alone |
| Sanitizer.DropEscapesReturn | analyzer.py:73 | a literal `\r` becomes one space, and the text after it is rewritten as if it stood alone |
| Sanitizer.DropEscapesQuote | analyzer.py:74 | `\"` is removed, and the text after it is rewritten as if it stood alone |
| Sanitizer.DropEscapesApostrophe | analyzer.py:75 | `\'` becomes `'`, and the text after it is rewritten as if it stood alone |
| Sanitizer.DropEscapesDollar | analyzer.py:76 | `\$` becomes `$`, and the text after it is rewritten as if it stood alone |
| Sanitizer.DropEscapesDoubleQuote | analyzer.py:69-78 | a plain `"` passes the nine backslash rewrites and is removed by the last one, and the text after it is rewritten as if it stood alone |
| Sanitizer.CollapseSpacesResult | analyzer.py:79 | after `\s+` to a space, whitespace is single ASCII spaces, the non-whitespace characters are exactly those of the input in order, nothing grew |
| Sanitizer.CollapseSpacesIdentity | analyzer.py:79 | text already single-spaced is left unchanged by the collapse |
| Sanitizer.CollapseSpacesWord | analyzer.py:79 | a run of non-whitespace characters at the front is kept as it is, and the rest is collapsed as if it stood alone |
| Sanitizer.CollapseSpacesWords | analyzer.py:79 | the collapse keeps the words: splitting its result on whitespace gives the same words, in order, as splitting its input |
| Sanitizer.StripResult | analyzer.py:79 | `strip()` removes an all-whitespace prefix and suffix and nothing else, leaves no whitespace at either end, and returns trimmed text unchanged |
| Sanitizer.StripWords | analyzer.py:79 | `strip()` keeps the words: its result splits into the same words, in order, as its input |
| Sanitizer.JoinWords | analyzer.py:79 | text with no edge whitespace and only single spaces is its words joined by single spaces |
| Sanitizer.CleanEscapeCharactersResult | analyzer.py:67-80 | the cleaned comment has no backslash, no `"`, no edge whitespace, no two adjacent whitespace characters, and is no longer than the input; its non-whitespace characters are those the escape rewrites leave, in order, so a comment without `\` and `"` keeps all of its non-whitespace characters |
| Sanitizer.CleanEscapeCharactersWords | analyzer.py:67-80 | the cleaned comment is exactly the words of the escape-rewritten text joined by single spaces (`' '.join(s.split())`) |
| Sanitizer.CleanEscapeCharactersIdempotent | analyzer.py:67-80 | cleaning a cleaned comment changes nothing |
| VideoId.GroupAt | analyzer.py:21-22 | group 1 of a match is eleven `[0-9A-Za-z_-]` characters |
| VideoId.ExtractVideoIdSpec | analyzer.py:19-25 | None exactly when no position holds `v=` or `/` followed by eleven id characters; otherwise the eleven characters after the leftmost such position |
| VideoId.ExtractVideoIdExample | analyzer.py:21-22 | `https://youtu.be/dQw4w9WgXcQ` yields `dQw4w9WgXcQ` |
| Merger.AddMember | analyzer.py:235-238 | routing one member keeps exactly the six theme keys |
| Merger.Merge | analyzer.py:223-240 | a merge that does not raise always yields exactly the six theme keys |
| Merger.MergeEntries | analyzer.py:223-240 | the nested loops over the local dict compute the merge fold, including abandoning it when `extend` raises |
| Merger.MergeObject | analyzer.py:234-238 | the inner loop over one stored object's members computes the members' fold, and stops with no report at the first `extend` that raises |
| Merger.BucketOf | analyzer.py:235-238 | every member is routed to a theme; to Other unless it is a list under a theme key |
| Merger.AddMembersSpec | analyzer.py:234-238 | routing an object's members succeeds iff no value is a number, bool or null, and appends each bucket's share in member order |
| Merger.MergeSpec | analyzer.py:232-240 | the merge succeeds iff no stored object has a number, bool or null member; each theme then holds the records routed to it, in store then member order |
| Merger.MergeCount | analyzer.py:232-238 | the report holds exactly as many records as `extend` was handed (the sum of the list lengths when all values are lists) |
| Merger.MergeSkipsNonObjects | analyzer.py:233-240 | stored entries that are not objects change neither the report nor the outcome |
| Merger.MergeSnocOther | analyzer.py:235-238 | an object holding a list under a key that is not a theme appends the whole list, in order, to Other after the records already there |
| Merger.MergeSnocSkip | analyzer.py:233-240 | a stored entry that is not an object leaves the report as it was |
| Merger.MergeSingleTheme | analyzer.py:223-238 | a store holding one object with one list under a theme key yields that list under that theme and every other theme empty |
| Merger.MergeExample | analyzer.py:223-240 | for any records: a Praise list goes to Praise; `Weird` and `requests` lists go to Other, in store order; a stored string is skipped; the other themes stay empty |
| Merger.MergeNumberFails | analyzer.py:235-238 | a number under any key, a theme key included, makes `extend` raise, and the merge yields no report |
| Pipeline.FirstRaised | analyzer.py:272 | the first chunk whose kickoff raises, or the chunk count: every earlier kickoff returned |
| Pipeline.CommentsAnalysis.constructor | analyzer.py:93-111 | the result store starts empty and no report is written |
| Pipeline.CommentsAnalysis.AppendResultToJson | analyzer.py:188-205 | the repaired text's parse is appended on success; on a decode error the store is unchanged |
| Pipeline.CommentsAnalysis.MergeResults | analyzer.py:216-248 | the report becomes the merge of the store, or stays as it was when the merge raises; the store is unchanged |
| Pipeline.CommentsAnalysis.Run | analyzer.py:250-296 | the store gains, in chunk order, each chunk's twice-repaired parse up to the first kickoff that raises; the merge runs only if none raised |
| Pipeline.StoredAppend | analyzer.py:267-291 | chunks are independent: the store's growth over two runs of chunks is the two contributions in order |
| Pipeline.FailedChunkSkipped | analyzer.py:284-289 | a chunk that fails to parse adds nothing, and later chunks are stored as if it were absent |
| Pipeline.StoredAllParse | analyzer.py:194-201 | when every text parses both times, the store receives, in order, the parse of each text repaired twice |
| Pipeline.StoredBound | analyzer.py:267-291 | the store never receives more results than there were chunks |
| Pipeline.RunOnNoComments | analyzer.py:262-293 | an empty comment list stores nothing and yields the report with six empty themes |

## Left out

- Comment fetching through the YouTube Data API (`YouTubeCommentsTool._run`, its pagination and client construction) is network I/O and is not part of this model.
- All file I/O is left out: `save_comments_to_json`, the writes of `initialize_results_file`, and the open, load, seek and dump steps of `append_result_to_json`, `merge_results` and `run`. The two result files are fields of `CommentsAnalysis`. Write failures (the outer handlers of `append_result_to_json` and `merge_results`) are not modelled.
- `run` loads `comments.json` first. A missing file or a `None` payload ends the run. Here `Run` receives the loaded list, taken to be a list of strings.
- The agent, task and crew construction, the prompt texts and the Groq model are static configuration. `crew.kickoff` is a parameter: a function of the chunk index and the chunk that returns text or raises. The model does not capture that the real call is nondeterministic across runs. The `str(result)` conversion is folded into the returned text.
- `json.loads` is a parameter: any partial parser. `json.dump` is not modelled. Any exception from `json.loads` other than a decode error is not modelled.
- Logging, `load_dotenv`, the `__main__` block and the unused `self.results` field are left out.
- Sanitizer.DropEscapesPrefix: no lemma of the per-escape kind covers a lone backslash (line 77). A rewrite earlier in the sequence can put a new escape next to it, so what follows it is not in general rewritten as if it stood alone. `DropEscapesResult` still states that no backslash survives.
- Batcher.SplitComments: requires a positive chunk size. For a size of 0 Python raises `ValueError`, and for a negative size it returns `[]`. The only caller passes 20.
- VideoId.ExtractVideoId: the URL is a string. The exception branch, reached for example by a non-string argument, is not modelled.
- Json.Json: a number is an abstract real, with no floating-point behaviour.
- Json.Json: an object may repeat a key, which `json.loads` never returns: for a repeated key Python keeps only the last value, at the first key's position. For such a value the model's merge routes every member, so it differs from Python there. The merge lemmas hold for every object, and so in particular for objects with distinct keys, which are the only ones a real parse yields.
- The merge is deterministic because `Merge` is a function. So running it twice on the same store gives the same report, and no separate lemma states this.
