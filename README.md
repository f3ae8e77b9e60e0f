# PowerToys OCR-to-speech helper and project setup script, modelled in Dafny

This project models the string logic and decision rules of two Python programs.

The first is `src/powertoys_text_to_speech_edge.py`. When a hotkey is pressed, it waits for PowerToys Text Extractor to put new text on the clipboard. It then tidies the OCR text and queues it for a SAPI "Natural" voice. The model covers:
- `tidy_text`;
- `wait_for_clip_change`, over a finite sequence of clipboard samples;
- the `SapiNaturalSpeaker` object: its queue, the `speak` length gate, the first-match voice selection and the worker loop that takes queued texts;
- the `on_hotkey` decision chain.

The second is `setup_project.py`, which renames a project template. The model covers:
- `validate_project_name`;
- `replace_token_in_text`, which is Python `str.replace`;
- `replace_token_in_file` and `update_pyproject_name_line`, over an in-memory map from path to file text;
- `find_or_expect_workspace_file`, over a directory listing;
- `rename_workspace_file`.

Modules:
- `Wrappers` (`wrappers.dfy`): `Option` and `Result`.
- `PyStr` (`pystr.dfy`): the Python `str` operations both programs use, namely `strip`, `lower`, the `in` substring test and `replace`. Whitespace is CPython's whitespace table. That table is shared by `str.strip`, `str.isspace` and the regex class `\s`.
- `SpeechEdge` (`speech_edge.dfy`): the text-to-speech program. `Speaker` is a class whose `queue` field is the FIFO queue. Its ghost `submitted` and `said` histories carry the invariant `submitted == said + queue`. That invariant says every accepted text is taken exactly once, in submission order.
- `SetupProject` (`setup_project.dfy`): the setup script. `Disk` is a class whose `files` map is the project tree on disk.

The regular expressions are written out as scanners:
- `re.sub(r"\s{2,}", " ", s)` is `CollapseRuns`.
- `re.sub(r'^(\s*name\s*=\s*)"(.*?)"', …, flags=re.MULTILINE)` is `MatchNameAssignment` and `RewriteFrom`. These scan left to right exactly as `re.sub` does. A match can start only at the start of the text or just after a newline. The leading `\s*` may run over newlines. The lazy `(.*?)` ends at the first `"`, and it never crosses a newline. Scanning resumes right after the closing quote.

What `tidy_text` does to the spacing is stated against a reference form, `Squeeze`. `Squeeze` is a left-to-right scan that writes every maximal whitespace run as one space. Two texts with the same squeezed form have the same words, in the same order, with a gap in the same places. The lemmas show that each step of `tidy_text` keeps the squeezed form, apart from the outer gaps that `strip` removes.

The rewrite applies to every `name = "…"` line in the file. It is not limited to the `[project]` table, despite the comment beside it (setup_project.py:79). The model follows the code.

## Model

| member | source | states |
|---|---|---|
| PyStr.Strip | setup_project.py:35 | `str.strip()`: the result is empty exactly when the input is all whitespace; otherwise it starts and ends with non-whitespace; text with no whitespace at either end is returned unchanged |
| PyStr.StripSlice | src/powertoys_text_to_speech_edge.py:50 | the stripped text is the input with only whitespace removed from its two ends |
| PyStr.Lower | src/powertoys_text_to_speech_edge.py:75 | `str.lower()` keeps the length and lower-cases each character; no upper-case ASCII letter survives |
| PyStr.ContainsBounds | src/powertoys_text_to_speech_edge.py:96 | a substring found with `in` is no longer than the text, and its first character occurs in the text |
| PyStr.ContainsCharIff | setup_project.py:38 | `" " in name` as a substring test holds exactly when the character occurs in the name |
| PyStr.Interleave | setup_project.py:47-49 | replacing the empty token gives length `|s| + (|s|+1)·|rep|`, draws every character from the text or the replacement, and with an empty replacement returns the text |
| PyStr.InterleaveBlock | setup_project.py:47-49 | replacing the empty token puts, in the i-th block of `|rep|+1` characters, the replacement followed by the i-th character of the text |
| PyStr.InterleaveEnd | setup_project.py:47-49 | replacing the empty token ends the result with one more copy of the replacement, after the last character's block |
| PyStr.Replace | setup_project.py:47-49 | `str.replace`: every character of the result comes from the text or the replacement; a one-character token absent from the replacement is absent from the result |
| PyStr.ReplaceLeftmost | setup_project.py:47-49 | `str.replace` rewrites the leftmost occurrence of the token as the replacement, keeps the text before it, and goes on with the text after it; with induction this is every non-overlapping occurrence, left to right |
| PyStr.ReplaceLengthOrder | setup_project.py:47-49 | a longer replacement never shortens the text, and a shorter one never lengthens it |
| PyStr.ReplaceUnchangedIff | setup_project.py:47-49 | the text comes back unchanged exactly when the token does not occur in it or the replacement equals the token |
| SpeechEdge.NewlinesToSpaces | src/powertoys_text_to_speech_edge.py:52 | after the three replaces, no `\r` or `\n` remains; text without them is unchanged |
| SpeechEdge.NewlinesToSpacesOnePass | src/powertoys_text_to_speech_edge.py:52 | the three chained replaces turn each line break, a `\r\n` pair or a lone `\r` or `\n`, into exactly one space and keep every other character |
| SpeechEdge.LineBreaksKeepGaps | src/powertoys_text_to_speech_edge.py:52 | turning line breaks into spaces keeps the words and the gaps between them: squeezed, the text is the same |
| SpeechEdge.CollapseRuns | src/powertoys_text_to_speech_edge.py:53 | after `re.sub(r"\s{2,}", " ")`, no two whitespace characters are adjacent; it is empty only for empty input; it adds no character except a space; text with no adjacent whitespace is unchanged |
| SpeechEdge.CollapseRunsRun | src/powertoys_text_to_speech_edge.py:53 | a maximal run of two or more whitespace characters becomes exactly one space, a lone whitespace character is kept, and the text after it is collapsed in turn |
| SpeechEdge.CollapseRunsKeepsGaps | src/powertoys_text_to_speech_edge.py:53 | collapsing runs keeps the words and the gaps between them: squeezed, the text is the same |
| SpeechEdge.StripSqueeze | src/powertoys_text_to_speech_edge.py:54 | stripping only drops the outer gaps: squeezing then stripping equals stripping then squeezing |
| SpeechEdge.TidyText | src/powertoys_text_to_speech_edge.py:46-54 | `tidy_text("") == ""`; the result holds no `\r` or `\n`, has no whitespace at either end, and has no two adjacent whitespace characters |
| SpeechEdge.TidyTextKeepsGaps | src/powertoys_text_to_speech_edge.py:46-54 | `tidy_text` keeps every word in order and every gap between two words, and drops the outer ones: squeezed, the result is the squeezed input, stripped; no word is glued to the next |
| SpeechEdge.TidyTextIdempotent | src/powertoys_text_to_speech_edge.py:46-54 | tidying tidied text changes nothing |
| SpeechEdge.TidyTextKeepsNonSpace | src/powertoys_text_to_speech_edge.py:46-54 | tidying keeps every non-whitespace character, in order; only whitespace is changed |
| SpeechEdge.FirstChangeIsChange | src/powertoys_text_to_speech_edge.py:60-63 | a sample the poll returns is one of the samples, is non-empty and differs from the baseline |
| SpeechEdge.FirstChangeAt | src/powertoys_text_to_speech_edge.py:60-63 | the poll returns the first qualifying sample and no later one |
| SpeechEdge.FirstChangeNoneIff | src/powertoys_text_to_speech_edge.py:60-65 | the poll returns none exactly when no sample in the window is non-empty and differs from the baseline |
| SpeechEdge.WaitForClipChange | src/powertoys_text_to_speech_edge.py:57-65 | the polling loop returns the first changed sample, or none once the samples run out |
| SpeechEdge.FirstMatch | src/powertoys_text_to_speech_edge.py:90-98 | the selected voice is the lowest index whose lower-cased description contains the match text; none when the match text is empty or no description matches |
| SpeechEdge.Speaker.constructor | src/powertoys_text_to_speech_edge.py:73-75 | the queue starts empty, and the match text is the lower-cased argument |
| SpeechEdge.Speaker.Speak | src/powertoys_text_to_speech_edge.py:79-81 | the text is appended to the queue exactly when it is non-empty and has at least `MIN_CHARS_TO_SPEAK` (3) characters; otherwise the queue is unchanged; the FIFO invariant is kept |
| SpeechEdge.Speaker.SelectVoice | src/powertoys_text_to_speech_edge.py:90-98 | the `for … break` loop selects exactly `FirstMatch` of the speaker's match text |
| SpeechEdge.Speaker.Take | src/powertoys_text_to_speech_edge.py:113-123 | one worker step: from an empty queue nothing is taken and nothing changes; otherwise the head is taken and removed, and it becomes the next said text |
| SpeechEdge.Speaker.Drain | src/powertoys_text_to_speech_edge.py:113-123 | running the worker until the queue is empty says exactly the queued texts, in submission order |
| SpeechEdge.Capture | src/powertoys_text_to_speech_edge.py:135-140 | a hotkey press speaks something exactly when the wait sees a first change and its tidied form is speakable; what it speaks is the tidied first change |
| SpeechEdge.ShortFirstChangeSilences | src/powertoys_text_to_speech_edge.py:135-142 | when the first change tidies to fewer than 3 characters nothing is spoken, even if a later sample would have been long enough |
| SpeechEdge.OnHotkey | src/powertoys_text_to_speech_edge.py:135-142 | the speaker's queue grows by `tidy_text(new_text)` only when a change was observed and the cleaned text has at least 3 characters; otherwise it is unchanged |
| SetupProject.ValidateProjectName | setup_project.py:30-44 | success returns the stripped name; it succeeds exactly when the stripped name matches `^[A-Za-z0-9][A-Za-z0-9._-]*$`; the "empty" error is raised exactly for all-whitespace names, and the "contains spaces" error exactly for other names whose stripped form holds a space |
| SetupProject.ValidateIdempotent | setup_project.py:35-44 | validating an accepted name again returns the same name |
| SetupProject.ClosingQuoteAt | setup_project.py:86 | the lazy `(.*?)"` ends at the first quote, provided no newline comes before it |
| SetupProject.MatchedSplit | setup_project.py:86 | a match splits the text into the head group, the quoted value and the rest |
| SetupProject.MatchedValueClean | setup_project.py:86 | a matched value holds no quote and no newline |
| SetupProject.HeadOfScans | setup_project.py:86 | the head scanner consumes, whole, every text made of whitespace, `name`, whitespace, `=` and whitespace |
| SetupProject.ScannedHeadOf | setup_project.py:86 | conversely, a text the head scanner consumes whole is whitespace, `name`, whitespace, `=` and whitespace |
| SetupProject.MatchedHeadIsNameHead | setup_project.py:86 | the head group of a match is whitespace, `name`, whitespace, `=` and whitespace, a form defined apart from the scanner |
| SetupProject.MatchNameAssignmentOf | setup_project.py:86 | conversely, every text made of a head of that form, a quoted value without quote or newline, and any rest is matched with exactly those groups |
| SetupProject.RewriteFrom | setup_project.py:81-86 | the rewrite keeps the number of newlines, so the line count is preserved |
| SetupProject.RewriteAtAssignment | setup_project.py:81-86 | a `name = "…"` line gets the new name as its quoted value; the head is kept and the rest is scanned on |
| SetupProject.RewriteKeepsPrefix | setup_project.py:86 | text up to the next newline that the pattern does not match where the scan enters it is copied unchanged; with nothing after it, this is the last line |
| SetupProject.RewriteKeepsLine | setup_project.py:86 | a whole line that does not start with a `name = "…"` assignment is copied unchanged, and the scan starts afresh on the next line |
| SetupProject.RewriteUnchangedIff | setup_project.py:81-88 | for a name without quotes, the rewrite leaves the text unchanged exactly when every `name = "…"` line already holds that name |
| SetupProject.Disk.constructor | setup_project.py:53-56 | the disk holds the given files: the map from path to text stands for the files `exists` tests and `read_text` reads |
| SetupProject.Disk.ReplaceTokenInFile | setup_project.py:52-67 | a missing path gives false and changes nothing; the result is true exactly when the replaced text differs, which is exactly when the token occurs and the replacement differs from it; the file is written only then and only outside dry-run |
| SetupProject.Disk.UpdatePyprojectNameLine | setup_project.py:70-95 | a missing path gives false; the result is true exactly when the rewrite changes the text, which for a name without quotes is exactly when some name line holds another value; it writes only then and only outside dry-run |
| SetupProject.TemplateBasenameQualifies | setup_project.py:27 | the expected template name `input_name.code-workspace` is itself a `*.code-workspace` name that contains `input_name` |
| SetupProject.FirstTemplateWorkspace | setup_project.py:110-112 | the first listed `*.code-workspace` entry whose name contains `input_name`, or none when no entry qualifies |
| SetupProject.Disk.FindOrExpectWorkspaceFile | setup_project.py:98-114 | the expected template file when it exists; otherwise the first qualifying entry of the directory listing; otherwise none; a path it returns is on disk |
| SetupProject.WithName | setup_project.py:118 | `with_name` keeps the directory and replaces the file name; it fails for an empty old name or a new name that is empty or holds a path separator |
| SetupProject.Disk.RenameWorkspaceFile | setup_project.py:117-132 | the target is `<name>.code-workspace` in the same directory; if that is the old path, the old path is returned and nothing changes; a dry run changes nothing; otherwise any existing target is replaced and the file moves there with its text |

## Left out

- Clipboard access (`get_clipboard_text`, `win32clipboard`, `win32con`): each clipboard read is an `Option<string>` sample given as input.
- SAPI and COM (`pythoncom`, `win32com.client.Dispatch`, `voice.Speak`, the `Rate`/`Volume` tuning) and the swallowing of speech errors: these are foreign calls. Speaking a text is modelled as taking it from the queue and appending it to the ghost `said` history.
- The worker thread, `Queue.get(timeout=…)`, `time.time` and `time.sleep`: this is concurrency and wall-clock timing. The queue is sequential, and the clipboard wait is a finite sequence of samples standing for the polls made before the timeout.
- The `keyboard` hotkey registration and `keyboard.wait`, and `main` in both files: these are event-loop and console plumbing.
- `print` output in every function is not modelled.
- `src/voice_test.py` is not part of this model. It is a script of COM calls, and its loop keeps the last matching voice rather than the first.
- `run_uv_sync` and `open_vscode` are not part of this model: they run subprocesses.
- `SapiNaturalSpeaker.__init__` accepts `None` as the match text (`natural_match_substr or ""`); the model takes a string, and passing `""` gives the same behaviour. The default argument `NATURAL_MATCH_SUBSTR` (`"natural"`) is the caller's choice: the constructor always takes the match text.
- PyStr.Lower: lower-cases ASCII letters only; full Unicode `str.lower` is not modelled.
- Real file-system access (`exists`, `read_text`, `write_text`, `rename`, `unlink`, `glob`) is an in-memory map from path to text. Path comparison is exact, so Windows case-insensitive path matching is not modelled. The `errors="replace"` decoding of `read_text` is not modelled, because files are already text. The map holds a file's text as `read_text` returns it: the newline translation that `read_text` applies when reading and `write_text` applies when writing is not modelled.
- SetupProject.Disk.FindOrExpectWorkspaceFile: the glob's enumeration order is the `listing` parameter. The method requires that every listed name is a file on disk, as a glob result is. The `vscode_dir.exists()` test is covered by an empty listing and is not a separate case.
- SetupProject.WithName: treats both `/` and `\` as separators, as Windows paths do. Drive letters and the special name `.` are not modelled; a name ending in `.code-workspace` is never `.`.
- SetupProject.RewriteFrom: the line-count property is stated for names without a newline. A new name holding a newline would add lines, as it would in the source.
