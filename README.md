# ProcoreImageRenamer: the metadata-to-filename pipeline

A Dafny model of the core of `pdfRenameWithRequests.py`. The script reads a
PDF export whose pages each carry hyperlinks to photos and a block of
metadata text ("Uploaded By", "Taken Date", "Upload Date", a description
line ending in "Description", and "Job #:"). It then does four things:

1. It downloads every linked photo to `{description}_{page}.jpeg`.
2. For every page that had a photo, it builds a name from the page's
   metadata.
3. It picks the first free variant of that name (`base.jpeg`,
   `base_1.jpeg`, ...).
4. It renames the photo to that name and moves it into a subdirectory
   named after the description.

The model has these modules, one file each:

- `Types` (types.dfy): `Option` and `Result`.
- `Text` (text.dfy): the Python string operations the script relies on:
  - `str.strip` with Python's full whitespace set;
  - `str.replace` of one character, and the single left-to-right pass of
    `replace("  ", " ")`;
  - `split` and `join` on one character;
  - the text before the first occurrence of a separator;
  - `str(int)`.
- `Cleaners` (cleaners.dfy): `clean_field`, `clean_date` and
  `clean_description`, as functions over the `findall` result list.
- `FieldParser` (parser.dfy): `parse_text_to_fields`. The five regular
  expressions come in three shapes (`marker(.*?)\n`, `(.*?)anchor` and
  `tag\s(\d+)`), and each shape is matched by a scanner over the text. Each
  scanner's first match is proved equal to a plain reading of the pattern.
- `FileSystem` (filesystem.dfy): the file system. It has two parts:
  - `Tree`, a value holding the files (with contents) and the directories,
    together with the behaviour of `os.path.exists`, `os.makedirs(...,
    exist_ok=True)`, `os.rename` and `open(..., "wb").write` as functions
    of the tree;
  - `Disk`, a class whose methods change the tree in place exactly as those
    functions say.
- `Reorganizer` (reorganizer.dfy): `rename_jpeg` and
  `move_jpeg_to_directory`. This includes the suffix search loop, proved to
  find the least free suffix. `RenameToBase` is `rename_jpeg` once the base
  name is known, and `RenameJpegResult` applies it to `NewNameBase`. The
  lemmas about renaming hold for every base name.
- `Pipeline` (pipeline.dfy): `download_jpeg`, `download_jpegs_from_pdf` and
  `process_pdf`, with these inputs:
  - the pages as given text and links;
  - the network as a function from URL to bytes;
  - the order in which the concurrent downloads complete, as a permutation
    of the indices of all the page links. When a parse raises part-way
    through submission, the indices of links that were never submitted are
    skipped when collecting.

The model follows the code as written, including these behaviours that
its docstrings and comments do not suggest:

- `clean_field` cuts a longer value to `limit` characters, as well as
  padding a shorter one.
- `clean_description` raises (it calls `.replace` on `None`) when there is
  no match or only blank text, although the other cleaners return `None`
  for a missing field. In the model this is `Err(NoneHasNoReplace)`, and it
  stops whichever pass meets it.
- The free-name search looks in the photo's own directory, not in the
  description subdirectory the photo finally lands in. So it can send two
  photos to the same final path (`Reorganizer.DedupIgnoresSubdirectory`).
- `os.rename` onto an existing file replaces it on POSIX and fails on
  Windows. `Disk.replaceOnRename` chooses between the two.

## Model

| member | source | states |
|---|---|---|
| Text.Strip | pdfRenameWithRequests.py:32 | `str.strip()`: the result is the input without its leading and trailing whitespace. It is empty exactly when the input is all whitespace, and otherwise starts and ends with a non-whitespace character. |
| Text.IndexOf | pdfRenameWithRequests.py:49 | The position found is the leftmost occurrence at or after the start. None means there is no occurrence at all. |
| Text.BeforeFirst | pdfRenameWithRequests.py:49 | `s.split(" at")[0]` is the prefix of the text that ends at the first `" at"`, or the whole text when there is none: no occurrence starts inside it, and one starts right after it unless it is the whole text. |
| Text.Split | pdfRenameWithRequests.py:18 | `split("\n")` never returns an empty list, and no piece contains the separator. |
| Text.JoinSplit | pdfRenameWithRequests.py:18 | Joining the pieces of a split with the separator gives the text back. |
| Text.LastPieceOfSplit | pdfRenameWithRequests.py:18-20 | The last piece of a split is the text after the last separator. |
| Text.AfterLast | pdfRenameWithRequests.py:18-20 | The text after the last separator is a separator-free suffix, preceded by the separator unless it is the whole text. |
| Text.CollapseDoubleSpaces | pdfRenameWithRequests.py:106 | `replace("  ", " ")` never makes the text longer. What it does keep and undo is stated by the three lemmas below. |
| Text.CollapseKeepsSingleSpaces | pdfRenameWithRequests.py:106 | Text without two adjacent spaces passes `replace("  ", " ")` unchanged. |
| Text.CollapseUndoesDoubling | pdfRenameWithRequests.py:106 | Collapsing double spaces undoes doubling every space (a round trip). |
| Text.CollapseKeepsOtherChars | pdfRenameWithRequests.py:106 | The collapse only removes spaces: every other character survives, in order. |
| Text.FilterAppend | pdfRenameWithRequests.py:149 | Removing non-word characters distributes over concatenation. |
| Text.NatToString | pdfRenameWithRequests.py:146 | The f-string rendering of a page number or suffix is a non-empty run of decimal digits, one digit exactly for numbers below 10. |
| Text.NatToStringValue | pdfRenameWithRequests.py:146 | Reading the rendering back as a decimal number gives the number (`int(str(n)) == n`). |
| Text.NatToStringInjective | pdfRenameWithRequests.py:146 | Different numbers render differently. |
| Cleaners.CleanField | pdfRenameWithRequests.py:27-41 | None exactly when there is no match. The result has no space. With a zero (falsy) limit it is the stripped first match with spaces as `_`. With a limit it has exactly `limit` characters: the cleaned match cut to that length, or padded with `_`. |
| Cleaners.NormalizedDate | pdfRenameWithRequests.py:49 | The date cut at `" at"`, stripped and with `/` as `_` contains neither `/` nor `" at"`. For a date without `" at"` it is the stripped date with `/` as `_`. |
| Cleaners.CleanDate | pdfRenameWithRequests.py:44-54 | None exactly when there is no match. The result contains no `/` and no `" at"`. It is the empty-string sentinel when the normalized first match reads "UploadDate" once spaces are removed, and otherwise exactly that normalized match. |
| Cleaners.CleanDateDropsTime | pdfRenameWithRequests.py:49 | Whatever follows the first `" at"` (the time of day) does not affect the cleaned date. |
| Cleaners.Hyphenate | pdfRenameWithRequests.py:23 | Replacing spaces and underscores with `-` turns exactly those characters into `-` and keeps every other character in place, so neither is left. |
| Cleaners.NonBlankLines | pdfRenameWithRequests.py:19 | The list comprehension keeps only lines that are not blank, each one a line of the input, and keeps every non-blank line. |
| Cleaners.NonBlankLinesKeepLast | pdfRenameWithRequests.py:19-20 | A non-blank last line stays last after blank lines are dropped. |
| Cleaners.LastNonBlankLine | pdfRenameWithRequests.py:18-20 | For stripped text, the last non-blank line is the text after the last newline. There is none exactly when the text is empty. |
| Cleaners.CleanDescription | pdfRenameWithRequests.py:13-24 | Raises exactly when there is no match or the first match is all whitespace. Otherwise the result is the last line of the stripped first match, hyphenated: non-empty, with no space and no `_`. |
| FieldParser.DigitRun | pdfRenameWithRequests.py:111 | `\d+` is greedy: the run is all digits and is not followed by a digit. |
| FieldParser.FirstMatch | pdfRenameWithRequests.py:113-117 | `findall` starts at the leftmost position where the pattern matches. No position before it matches, and None means no position matches. |
| FieldParser.FindAll | pdfRenameWithRequests.py:113-117 | `re.findall` is empty exactly when the pattern matches nowhere, starts with the group of the leftmost match, and holds at most one match per position. |
| FieldParser.LineAfterFirstMatch | pdfRenameWithRequests.py:107-115 | For the three marker patterns, the first match captures the characters between the first marker and the next newline. There is no match exactly when that line is missing. |
| FieldParser.MarkerLineAbsent | pdfRenameWithRequests.py:107-115 | A marker field is missing exactly when no marker is followed, anywhere later, by a newline. |
| FieldParser.PrefixBeforeFirstMatch | pdfRenameWithRequests.py:110-116 | The first match of `(.*?)Description` is the text before the first "Description". There is none exactly when the anchor is missing. |
| FieldParser.DigitsAfterMatchAt | pdfRenameWithRequests.py:111 | `Job #:\s(\d+)` matches at a position exactly when the tag, one whitespace character and a digit meet there. It then captures the whole digit run. |
| FieldParser.DigitsAfterFirstMatch | pdfRenameWithRequests.py:111-117 | The first job-number match is at the first such position, and is the maximal digit run there. There is no match exactly when no such position exists. |
| FieldParser.ParseTextToFields | pdfRenameWithRequests.py:102-127 | When present, the uploader field is exactly 5 characters. The description is non-empty and free of spaces and `_`. The job number is the one read from the collapsed text. |
| FieldParser.CleanersReadFirstMatch | pdfRenameWithRequests.py:119-121 | The cleaners depend only on whether there is a match and on the first match. |
| FieldParser.ParseMarkerFields | pdfRenameWithRequests.py:106-121 | Uploader, taken date and upload date are the cleaned lines after the first marker of each kind in the collapsed text. Each is absent exactly when its line is. |
| FieldParser.ParseDescription | pdfRenameWithRequests.py:106-122 | The parse fails exactly when the collapsed text has no "Description", or only whitespace before it. Otherwise the description is the last line before it, hyphenated. |
| FieldParser.JobNumber | pdfRenameWithRequests.py:125 | `job_number[0] if job_number else None`: a job number, when present, is a non-empty run of digits. |
| FieldParser.JobNumberFound | pdfRenameWithRequests.py:111-125 | The job number is the whole digit run after the first "Job #:" followed by a whitespace character and a digit. It is None when there is no such place, and is never sanitised. |
| FileSystem.WriteKeepsTree | pdfRenameWithRequests.py:66-67 | `open(..., "wb").write` fails exactly when the path is not writable, and then changes nothing. Otherwise the file holds exactly the data and nothing else changes. |
| FileSystem.MakeDirsKeepsTree | pdfRenameWithRequests.py:136 | `os.makedirs(..., exist_ok=True)` keeps the tree well formed and only adds directories. After success the directory exists. After failure nothing changed. |
| FileSystem.RenameKeepsTree | pdfRenameWithRequests.py:138 | `os.rename` moves the contents from source to destination and changes no other file or directory. A failed rename changes nothing. |
| FileSystem.Disk.PathExists | pdfRenameWithRequests.py:152 | `os.path.exists` holds exactly for the tree's files and directories. |
| FileSystem.Disk.Write | pdfRenameWithRequests.py:66-67 | The disk afterwards, and the error, are those of the write semantics. |
| FileSystem.Disk.MakeDirs | pdfRenameWithRequests.py:136 | The disk afterwards, and the error, are those of the `os.makedirs` semantics. |
| FileSystem.Disk.Rename | pdfRenameWithRequests.py:138 | The disk afterwards, and the error, are those of the `os.rename` semantics. |
| Reorganizer.KeepWordChars | pdfRenameWithRequests.py:149 | `re.sub(r"\W+", "", s)` leaves only word characters. |
| Reorganizer.NewNameBase | pdfRenameWithRequests.py:145-149 | The base name contains only word characters. |
| Reorganizer.NewNameBaseParts | pdfRenameWithRequests.py:145-149 | The base is the description, page, taken date and job number, each cleared of non-word characters and joined by `_`. The taken date is left out exactly when it is the empty-string sentinel. None renders as "None". |
| Reorganizer.Candidate | pdfRenameWithRequests.py:150-154 | A candidate name starts with the base and ends in `.jpeg`, and it is `base.jpeg` exactly for suffix 0. |
| Reorganizer.CandidateInjective | pdfRenameWithRequests.py:150-154 | Different suffixes give different candidate names. |
| Reorganizer.CandidatesBound | pdfRenameWithRequests.py:152-154 | Only as many candidates can be taken as the directory has entries, so the search ends. |
| Reorganizer.LeastFreeSuffix | pdfRenameWithRequests.py:150-154 | The chosen suffix's candidate does not exist in the directory, and every lower suffix's does. |
| Reorganizer.LeastFreeSuffixUnique | pdfRenameWithRequests.py:150-154 | Only one suffix is free with all lower ones taken. |
| Reorganizer.FreeName | pdfRenameWithRequests.py:150-155 | The `while os.path.exists` loop returns the candidate of the least free suffix in the photo's own directory. |
| Reorganizer.MoveKeepsTree | pdfRenameWithRequests.py:131-138 | `move_jpeg_to_directory` keeps the tree well formed. |
| Reorganizer.MoveJpegToDirectory | pdfRenameWithRequests.py:131-138 | The disk afterwards, and the error, are `makedirs(dirname/description)` followed by a rename into it under the same base name. |
| Reorganizer.MovePlacesFile | pdfRenameWithRequests.py:131-138 | A successful move leaves the file, contents intact, at `dirname/description/basename`, and touches no other file apart from one it may replace there. A failed move changes no file. |
| Reorganizer.RenameJpegKeepsTree | pdfRenameWithRequests.py:141-160 | `rename_jpeg` keeps the tree well formed, whatever the base name. |
| Reorganizer.RenameJpeg | pdfRenameWithRequests.py:141-160 | The disk afterwards and the report are those of the name, least-free-suffix, rename and move steps, with errors caught and reported. |
| Reorganizer.RenameThenMove | pdfRenameWithRequests.py:157-158 | Renaming to a free name and then moving leaves the file only in the subdirectory, and touches no other file. |
| Reorganizer.RenameJpegPlacesFile | pdfRenameWithRequests.py:145-158 | For any base name: on success the photo is at `dirname/description/name`, with `name` the least free candidate in `dirname` and its contents unchanged. Neither the old path nor the intermediate one remains, and other files are unchanged. |
| Reorganizer.MoveSucceeds | pdfRenameWithRequests.py:131-138 | `move_jpeg_to_directory` succeeds for an existing file when nothing on the way to `dirname/description` is a file, the destination is not a directory, and (unless `os.rename` replaces) no file is there yet. |
| Reorganizer.RenameJpegSucceeds | pdfRenameWithRequests.py:150-158 | For any base name, `rename_jpeg` succeeds, and reports `dirname/description/name` for the least free candidate `name`, when the photo exists, the description differs from that name, nothing on the way to `dirname/description` is a file, the final path is not a directory, and (unless `os.rename` replaces) no file is there yet. |
| Reorganizer.RenameJpegFailureKeepsImage | pdfRenameWithRequests.py:156-160 | On failure the photo is not lost. It is at its old path, or, if only the move failed, at the free name beside it. |
| Reorganizer.DedupIgnoresSubdirectory | pdfRenameWithRequests.py:152-158 | When `base.jpeg` is free beside the photo but taken in the subdirectory, the photo meets that file. With replacing rename it overwrites the earlier photo (one file fewer). Otherwise the move fails and the photo stays behind. |
| Pipeline.DownloadPath | pdfRenameWithRequests.py:65 | `os.path.join(path, ...)`: the download lies directly in the target directory. |
| Pipeline.DownloadPathInjective | pdfRenameWithRequests.py:65 | Titles have no `_`, so different pages never download to the same file. |
| Pipeline.DownloadJpeg | pdfRenameWithRequests.py:60-68 | The disk afterwards, and the file or error, are those of writing the fetched bytes to `{title}_{page}.jpeg`. |
| Pipeline.SubmittedCrash | pdfRenameWithRequests.py:80-83 | Submission stops exactly at the first page whose parse raises, and reports that page's error. |
| Pipeline.SubmittedJobs | pdfRenameWithRequests.py:80-95 | Every submitted download is a link of a parsed page, under that page's 1-based number and its description as title. Without a crash every link is submitted. |
| Pipeline.SubmittedCovers | pdfRenameWithRequests.py:85-95 | Without a crash every page with a hyperlink has a download submitted. |
| Pipeline.SubmittedAfterCrash | pdfRenameWithRequests.py:80-83 | Once a parse has raised, later pages change nothing. |
| Pipeline.SubmitDownloads | pdfRenameWithRequests.py:80-95 | The submitting loop returns the downloads and crash of the first-pass specification. |
| Pipeline.CollectTree | pdfRenameWithRequests.py:96-98 | Collecting in any order removes no file and changes no directory. It records no error exactly when every download's file is writable. |
| Pipeline.CollectMap | pdfRenameWithRequests.py:96-98 | Without an error, the map's keys are exactly the page numbers of the completed downloads, and each value is a file one of them wrote, still present. |
| Pipeline.CollectDownloads | pdfRenameWithRequests.py:96-98 | The `as_completed` loop leaves the disk, map and error of the collection specification. |
| Pipeline.DownloadJpegsFromPdf | pdfRenameWithRequests.py:71-99 | The disk afterwards and the result are those of submitting and collecting in the given completion order. |
| Pipeline.DownloadedPages | pdfRenameWithRequests.py:71-99 | The first pass fails on a parse exactly when some page's parse raises. A successful run maps exactly the numbers of the pages with a hyperlink, each to `{title}_{number}.jpeg`, which exists afterwards. |
| Pipeline.DownloadSucceeds | pdfRenameWithRequests.py:71-99 | The first pass succeeds exactly when every page parses and every linked page's file is writable. |
| Pipeline.DownloadOrderIrrelevant | pdfRenameWithRequests.py:96-98 | Two completion orders succeed or fail together, and successful runs return the same map. |
| Pipeline.KeyPagesFacts | pdfRenameWithRequests.py:173-179 | The pages visited and found in the map are strictly ascending, and are exactly the keys in `1..n`. |
| Pipeline.KeyPagesPrefix | pdfRenameWithRequests.py:173-179 | The key pages up to `m` come first among those up to `n`. |
| Pipeline.RenameLoopCalls | pdfRenameWithRequests.py:173-187 | The page loop calls `rename_jpeg` once per key page, in ascending order, with that page's file. It completes exactly when every page parses. A crash leaves the calls for the key pages before it. |
| Pipeline.RenameLoopKeepsTree | pdfRenameWithRequests.py:173-187 | The page loop keeps the tree well formed. |
| Pipeline.RenameLoopAfterCrash | pdfRenameWithRequests.py:176-178 | Once the page loop has raised, later pages change nothing. |
| Pipeline.RenamePages | pdfRenameWithRequests.py:173-187 | The page loop leaves the disk, calls and crash of the page-loop specification. |
| Pipeline.ProcessPdf | pdfRenameWithRequests.py:163-187 | The disk afterwards, the calls and the failure are `makedirs`, then the first pass, then the page loop. |
| Pipeline.LoopCallsLinkedPages | pdfRenameWithRequests.py:173-187 | Over the first pass's map, the page loop calls `rename_jpeg` exactly for the linked pages, ascending, on each page's downloaded file. |
| Pipeline.ProcessRenamesLinkedPages | pdfRenameWithRequests.py:163-187 | When nothing stops it, `process_pdf` renames once per page with a hyperlink (within the second pass's page count), in ascending order, each on the file that page's downloads wrote. Every other page is skipped. |

## Left out

- HTTP: `requests.get` is the `fetch` parameter (URL to bytes). A request that raises (connection error or timeout) is not modelled, and a response's status is not looked at, as in the script.
- Concurrency: the ten-worker pool is not modelled. The effect of its scheduling is captured by the completion order, a permutation of the indices of all the page links; indices of links never submitted are skipped. Each download's write is taken to happen in that order.
- PDF extraction: `pdfplumber` and `PyPDF2` are library code. Their output is the input here: the first pass's page texts and hyperlink URIs, and the second pass's page texts, which may differ.
- The `__main__` block (argument checks, debug prints, backslash and quote stripping of the directory, `sys.exit`) is command-line plumbing.
- `print` of the failure message in `rename_jpeg`: the model returns the report instead of printing it.
- Character classes: `\d` and `\W` are ASCII-only here. Python's Unicode digits and letters are not modelled.
- Paths are lists of components, and `os.path.join` appends one component. A description that contains `/`, is absolute, or is `.` or `..` would in Python name another directory. The model treats it as one ordinary name.
- Permissions, cross-device renames and other operating-system failures are not modelled; only the errors listed in `FileSystem.OsError` arise.
