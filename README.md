# ConvertorPDF2PNG in Dafny

This project models the class `ConvertorPDF2PNG` of `convert_pdf_2_png.py` and proves properties of the model. The class turns a PDF into one PNG file per page and then manages the PDF itself:

- it validates the input (an existing file with a supported extension);
- it renames the PDF so that its file name holds only digits, ASCII letters and ASCII punctuation;
- it hands the file to the rasterisation engine;
- it saves the returned pages under deterministic names, up to a page cap, and stops at the first failed save;
- it moves the PDF into the `pdf_files` bucket when pages were written, or into the `failed_to_convert` bucket when none were;
- when a move raises, it retries under `fail_to_move/<milliseconds>`.

The model has three layers:

- **Pure logic.** These are functions and lemmas:
  - `Paths`: `split`/`join` on one character, backslash normalisation, file name, directory, stem and extension.
  - `TemplateFormat`: `str(n)` and the part of `str.format` the class uses.
  - `Naming`: the page-name template.
  - `Sanitizer`: the character filter.
  - `Validation`: lower-casing, the format list and input validation.
- **Specification functions.** `Storage` models the filesystem as a value `Disk(files, dirs)`, with `os.makedirs`, `os.rename`, `shutil.move` into a directory, and `Image.save`. `Validation` models `get_supported_formats` and `validate_input_file`, `Naming` models `get_output_pdf_image_names`, and `Paths.Directory` is `get_output_directory`. `Pipeline` models the methods that touch the disk and `convert_pdf_from_path`, each as a function from the disk before the call to an `Effect`: the disk after the call and either the returned value or the exception raised.
- **The class itself.** `Os.FileSystem` is the live filesystem, a class whose methods change its `files` and `dirs`. `Convertor.ConvertorPdf2Png` holds the settings and a filesystem. Each of its methods runs the same steps as the Python method, with its loops and its recursion, and ensures that the new filesystem state and the result are the ones the corresponding `Pipeline` function gives.

`Pipeline` takes a `Variant`. `AsWritten` is the convertor as the code stands, and the class is proved against it. `Corrected` differs in two places, each tied to a row under "## Findings": a path with no directory part stays in its directory when it is cleaned, and the braces of the stem and of the image format are doubled in the page-name template. The properties of a conversion are proved for both variants wherever they hold for both. Where they differ, a lemma shows how (`Pipeline.RenameTargetParts`, `Pipeline.ConvertVariantsAgree`).

Calls the class cannot see become inputs:

- whether `os.rename` succeeds;
- the pages `convert_from_path` returns, or its failure;
- whether each `Image.save` succeeds;
- for each try of `shutil.move`, whether it succeeds and the clock reading `int(time.time() * 1000)` taken after it fails.

An exception that escapes a method becomes an `Err(Failure)` outcome.

The model follows the code, including in these two cases:

- The page cap is checked after each save. So a cap of zero or less still writes the first page, not none (`Pipeline.CapBelowOneWritesOnePage`).
- Some exceptions do escape the top-level call: one from `os.rename`, one from `os.makedirs` (for example on the default empty output path) and one from `str.format`. They are not all caught (`Pipeline.EmptyOutputPathRaises`, `Pipeline.ProcessOutputRaises`).

## Model

| member | source | states |
|---|---|---|
| Paths.NormalizeIdempotent | convert_pdf_2_png.py:73 | normalising twice is normalising once, and a path without backslashes is left as it is |
| Paths.JoinSplit | convert_pdf_2_png.py:80 | joining the pieces of `split(c)` with `c` gives back the original string |
| Paths.DirectoryAndFileName | convert_pdf_2_png.py:157-158 | the directory part, `/` and the file name rebuild the normalised path; without a `/` the directory is empty and the file name is the whole path |
| Paths.FileNameHasNoSeparator | convert_pdf_2_png.py:158 | the file name (`split('/')[-1]`) holds neither `/` nor `\` |
| Paths.PiecesAroundLast | convert_pdf_2_png.py:73 | around the last separator of `p + c + q` (with `c` not in `q`), `split(c)[-1]` is `q` and the join of the other pieces is `p` |
| Paths.BackslashPathExample | convert_pdf_2_png.py:157-158 | `a\b.c.pdf` has the directory `a` and the file name `b.c.pdf` |
| Paths.StemExample | convert_pdf_2_png.py:73 | only the last suffix is dropped from the file name: the stem of `b.c.pdf` is `b.c` |
| Paths.ExtensionExamples | convert_pdf_2_png.py:125 | the extension is taken from the whole path: `pdf` is its own extension, and `v1.2/report` has the extension `2/report` |
| TemplateFormat.Decimal | convert_pdf_2_png.py:141 | `str(n)` is a non-empty string of digits with no leading zero |
| TemplateFormat.DecimalRoundTrip | convert_pdf_2_png.py:95 | reading back the decimal rendering of a number gives the number |
| TemplateFormat.DecimalInjective | convert_pdf_2_png.py:95 | distinct numbers have distinct renderings |
| TemplateFormat.FailureIndependentOfArguments | convert_pdf_2_png.py:95 | whether `format` raises depends only on the template, never on the arguments |
| TemplateFormat.EscapeIsLiteral | convert_pdf_2_png.py:95 | a string with its braces doubled is printed literally by `format`, whatever follows it |
| TemplateFormat.FormatConcat | convert_pdf_2_png.py:95 | a template that formats can be followed by any other template: the results are concatenated |
| TemplateFormat.TwoFields | convert_pdf_2_png.py:74 | text, `{0}`, text, `{1}`, text formats to the texts with the two arguments put in place of the fields |
| Naming.OutputTemplateFormats | convert_pdf_2_png.py:73-74 | the template with its braces escaped always formats, and page `p` of `n` gets `<stem>-pdf-page<p>_from_<n>.<format>` |
| Naming.PageFileNamesDistinct | convert_pdf_2_png.py:95 | different page numbers give different file names, so no page overwrites another |
| Naming.AsWrittenAgreesWithoutBraces | convert_pdf_2_png.py:73-74 | when the stem and the image format have no braces, the template as written equals the escaped one |
| Naming.AsWrittenBraceRaises | convert_pdf_2_png.py:73-74 | as written, a file whose stem is `a{b}` makes `format` raise instead of naming the page |
| Naming.BraceNameStem | convert_pdf_2_png.py:73 | the stem of `a{b}.pdf` is `a{b}` |
| Sanitizer.KeptIsVisibleAscii | convert_pdf_2_png.py:160 | digits, lower- and upper-case ASCII letters and ASCII punctuation together are exactly the characters `!` through `~` |
| Sanitizer.ReplaceRemovesTarget | convert_pdf_2_png.py:168 | after `replace(c, '_')` no `c` is left (for `c` other than `_`), every other character of the name is still there, and replacing again changes nothing |
| Sanitizer.ReplaceUnkeptCharacters | convert_pdf_2_png.py:162-168 | visiting the distinct characters in any order and replacing each one that is not kept yields the sanitised name |
| Sanitizer.SanitizedShape | convert_pdf_2_png.py:165-168 | the sanitised name has the same length, keeps each kept character in place, has `_` wherever else, and holds only kept characters |
| Sanitizer.SanitizedIdempotent | convert_pdf_2_png.py:165-168 | sanitising twice is sanitising once |
| Sanitizer.SanitizedKeepsCleanName | convert_pdf_2_png.py:165-167 | a name made of kept characters only is left unchanged |
| Sanitizer.VisibleAsciiUnchanged | convert_pdf_2_png.py:160-168 | a name made of the characters `!` through `~` only is left unchanged |
| Sanitizer.AsWrittenMovesToRoot | convert_pdf_2_png.py:157-170 | as written, a path with no directory part is renamed to `/` plus its sanitised name; the corrected path has no leading `/` |
| Sanitizer.ReportExample | convert_pdf_2_png.py:170 | `report.pdf` is renamed to `/report.pdf` as written, one `/` in front of the corrected path |
| Sanitizer.SplitAtLastSlash | convert_pdf_2_png.py:157-158 | splitting `d/s`, where `s` has no `/`, gives back the directory `d` and the file name `s` |
| Sanitizer.SanitizedFileNameHasNoSeparator | convert_pdf_2_png.py:158-168 | the sanitised file name contains no separator |
| Sanitizer.DirectoryHasNoBackslash | convert_pdf_2_png.py:157 | the directory part contains no backslash |
| Sanitizer.CleanedPathStaysInDirectory | convert_pdf_2_png.py:157-170 | the cleaned path has a directory exactly when the original has one, the same directory, and the sanitised file name |
| Sanitizer.CleanedPathIdempotent | convert_pdf_2_png.py:157-170 | cleaning a cleaned path changes nothing |
| Validation.LowerCaseOnly | convert_pdf_2_png.py:115 | `lower()` leaves no upper-case ASCII letter, keeps every other character in place, and changes a string exactly when it holds an upper-case letter |
| Validation.LowerIdempotent | convert_pdf_2_png.py:115 | lower-casing twice is lower-casing once |
| Validation.SupportedFormatsIgnoreCase | convert_pdf_2_png.py:112-115 | a format is supported exactly when some configured format lower-cases to it, and every supported format is already lower case |
| Validation.EmptyFormatListRejectsAll | convert_pdf_2_png.py:112-125 | with no configured formats every path is rejected |
| Validation.ValidExactlyWhenFormatMatches | convert_pdf_2_png.py:122-125 | a path is valid exactly when it is an existing file and its extension equals some configured format without regard to case |
| Validation.ExtensionOfWholePath | convert_pdf_2_png.py:125 | with the format `PDF`, the existing file `pdf` is accepted and the existing file `v1.2/report` is rejected |
| Storage.MakeDirsTwiceRaises | convert_pdf_2_png.py:149 | after `os.makedirs` succeeds the path and every ancestor is a directory, and a second call on the same path raises |
| Storage.RenameReplacesTarget | convert_pdf_2_png.py:171 | `os.rename` keeps every file other than its source and target; on success the target exists and a distinct source is gone, and a regular file already at the target is replaced, so the number of files drops by one |
| Storage.BaseName | convert_pdf_2_png.py:138 | the base name is the longest suffix of the path without a `/`: it has no `/`, ends the path, and is either the whole path or preceded by a `/` |
| Storage.PathJoinKeepsName | convert_pdf_2_png.py:138 | the joined path has the name as its base name, and is one character longer than directory and name together unless the directory is empty or already ends with `/` |
| Storage.SaveOverwrites | convert_pdf_2_png.py:98 | a save onto an existing file leaves the disk as it was, a save onto a new path adds exactly one file, and saving twice is saving once |
| Storage.MoveIntoKeepsOtherFiles | convert_pdf_2_png.py:138 | a move never overwrites: other files stay, the number of files is unchanged, on success the source is gone and the target is there, and the target keeps the base name of the source |
| Os.FileSystem.MakeDirs | convert_pdf_2_png.py:149 | changes the live state as `Storage.MakeDirs` describes and returns its outcome |
| Os.FileSystem.Rename | convert_pdf_2_png.py:171 | changes the live state as `Storage.Rename` describes and returns its outcome |
| Os.FileSystem.MoveInto | convert_pdf_2_png.py:138 | changes the live state as `Storage.MoveInto` describes and returns its outcome |
| Os.FileSystem.Save | convert_pdf_2_png.py:98 | adds the saved path to the live state |
| Pipeline.CreateDirectory | convert_pdf_2_png.py:143-149 | files are untouched, directories only grow, on success the directory exists, and when it raises nothing changes |
| Pipeline.CreateDirectoryIdempotent | convert_pdf_2_png.py:143-149 | creating a directory twice is creating it once, whether the first call succeeded or raised |
| Pipeline.CreateDirectoryOutcome | convert_pdf_2_png.py:147-149 | an existing directory is left alone; otherwise the result is exactly that of `os.makedirs` |
| Pipeline.RenameTargetParts | convert_pdf_2_png.py:157-170 | in both variants the new path has the directory part (`'/'.join(split('/')[:-1])`, which is `''` for both `name` and `/name`) of the old one and the sanitised file name; the two agree when the path has a directory part, and otherwise the path as written is the corrected one with a `/` in front |
| Pipeline.PageTemplatesAgree | convert_pdf_2_png.py:73-74 | when the stem and the image format hold no braces, both variants build the same page-name template |
| Pipeline.SanitizeMissingFile | convert_pdf_2_png.py:155-156 | a path that is not a file is returned unchanged and the disk is untouched |
| Pipeline.SanitizeExistingFile | convert_pdf_2_png.py:157-175 | in either variant, an existing file is renamed to its target, which keeps the directory part (the `'/'.join(split('/')[:-1])` part, which cannot tell `''` from `/`; `Pipeline.SanitizeSendsToRoot` gives the as-written path exactly) and has the sanitised name, exactly when the rename is allowed and the target is not a directory; the new path is returned and only that file moves; otherwise the call raises and nothing changes |
| Pipeline.SanitizeSendsToRoot | convert_pdf_2_png.py:157-175 | as written, an existing file with no directory part, such as `report.pdf`, is renamed to `/` plus its sanitised name, which is the path returned, exactly when the rename is allowed and that path is not a directory |
| Pipeline.SanitizeVariantsAgree | convert_pdf_2_png.py:157-175 | for a path with a directory part, the method as written and the corrected one behave alike |
| Pipeline.FirstFailure | convert_pdf_2_png.py:96-102 | the index of the first page whose save fails: every earlier page saves |
| Pipeline.WritePagesRaises | convert_pdf_2_png.py:94-95 | the page loop raises exactly when the template does not format |
| Pipeline.WritePagesCount | convert_pdf_2_png.py:94-105 | the page loop writes `min(N, k, max(cap, 1))` paths for `N` pages, the first failing save at `k` and the cap `cap` |
| Pipeline.WritePagesNames | convert_pdf_2_png.py:94-99 | the loop returns the paths appended so far followed by one path per page written, in page order |
| Pipeline.WritePagesDisk | convert_pdf_2_png.py:98-99 | the loop adds exactly the returned paths as files and leaves the directories alone |
| Pipeline.ProcessOutputResult | convert_pdf_2_png.py:82-106 | on return, the number of paths is `min(N, k, max(cap, 1))`, entry `j` names page `j + 1` of `N` in `output_path/png_files`, exactly those files are added, and the only directories added are those the image directory needs; with no pages, `[]` is returned and the disk is untouched |
| Pipeline.ProcessOutputRaises | convert_pdf_2_png.py:88-95 | with pages to write, the call raises exactly when the image directory cannot be created or the template does not format |
| Pipeline.CapBelowOneWritesOnePage | convert_pdf_2_png.py:98-105 | a cap of zero or less still writes the first page when its save succeeds |
| Pipeline.ProcessOutputNames | convert_pdf_2_png.py:91-95 | with the escaped template, entry `j` is `output_path/png_files/<stem>-pdf-page<j+1>_from_<N>.<format>`, and no two entries coincide |
| Pipeline.NamedPages | convert_pdf_2_png.py:95 | paths formatted from the escaped template are the intended page names and are pairwise distinct |
| Pipeline.ProcessOutputTemplateNeverRaises | convert_pdf_2_png.py:88-95 | with the escaped template, the call raises only when the image directory cannot be created |
| Pipeline.RelocateMissingSource | convert_pdf_2_png.py:132-134 | moving a file that does not exist does nothing |
| Pipeline.RelocateMovesOneFile | convert_pdf_2_png.py:132-141 | directories only grow; when the move raises, the files are as they were; when it returns, an existing source has gone to a path that was free and keeps its base name: either the `shutil.move` target in the destination, or a path under `destination/fail_to_move/<millis>` of the first failed try; either way inside the destination when its name does not end with `/` |
| Pipeline.RelocateFirstTry | convert_pdf_2_png.py:136-141 | a relocation that returns has put the file at the `shutil.move` target in the destination exactly when the first try succeeded; otherwise it lies under the retry directory |
| Pipeline.RetryNotTarget | convert_pdf_2_png.py:138-141 | no path under a retry directory `dest/fail_to_move/<millis>` is the direct target `os.path.join(dest, name)` of a name without `/` |
| Pipeline.RelocateKeepsFileCount | convert_pdf_2_png.py:135-141 | moving, with its retries, never changes the number of files |
| Pipeline.BucketsApart | convert_pdf_2_png.py:47-50 | two buckets of one output path whose names differ and hold no `/` share no path: no file lies inside both |
| Pipeline.LandedInOwnBucket | convert_pdf_2_png.py:47-50 | a file moved into a bucket whose name is non-empty and holds no `/` lies inside that bucket and inside no other bucket |
| Pipeline.EngineFailureIsNoPages | convert_pdf_2_png.py:57-67 | a conversion where the engine raises behaves exactly like one where the engine returns no pages |
| Pipeline.ConvertRejectsExactlyInvalid | convert_pdf_2_png.py:35-37 | the call returns `('', '')` exactly for an input that fails validation, and then the disk is untouched |
| Pipeline.ConvertedSteps | convert_pdf_2_png.py:38-44 | a conversion that returns has renamed the PDF to the target of its variant (as written, `/name` for a path with no directory part), created the output directory and written the pages with that variant's template, and returns that path and those pages |
| Pipeline.NothingWritten | convert_pdf_2_png.py:45 | no image is written exactly when the engine gave no pages or the first save failed |
| Pipeline.ConvertedOutputs | convert_pdf_2_png.py:38-51 | in either variant, a conversion that returns names the renamed PDF and writes `min(N, k, max(cap, 1))` images in page order, each named by the variant's template; none exactly when there were no pages or the first save failed |
| Pipeline.ConvertedNames | convert_pdf_2_png.py:38-51 | the images of a conversion that returns are `output_path/png_files/<stem>-pdf-page<j+1>_from_<N>.<format>`, pairwise distinct: always when corrected, and as written whenever the cleaned stem and the image format hold no braces |
| Pipeline.ConvertedPlacement | convert_pdf_2_png.py:45-51 | a conversion that returns has moved the PDF from its renamed path to a path that was free, keeping its base name, in `output_path/failed_to_convert` when no image was written and in `output_path/pdf_files` otherwise, each time either at the `shutil.move` target or under the bucket's `fail_to_move/<millis>`; apart from that one move the files are those left by the rename and the page writing |
| Pipeline.PlacementAfterPages | convert_pdf_2_png.py:47-50 | the final move takes the PDF away from its path to a path that was free, keeping its base name, at the `shutil.move` target in the bucket or under its `fail_to_move/<millis>`, and changes no other file |
| Pipeline.EngineFailureGoesToFailedBucket | convert_pdf_2_png.py:43-48 | when the engine fails, no image is written and the PDF goes to a free path in `output_path/failed_to_convert` (at the `shutil.move` target or under its `fail_to_move/<millis>`), keeping its base name; that is the only change after the rename |
| Pipeline.PlacedInOneBucket | convert_pdf_2_png.py:45-51 | with distinct, non-empty bucket names free of `/`, a conversion that returns leaves the PDF inside `output_path/failed_to_convert` and not inside `output_path/pdf_files` when no image was written, and the other way round otherwise |
| Pipeline.EmptyOutputPathRaises | convert_pdf_2_png.py:28-41 | with the default empty output path, a valid input is renamed to its variant's target and then the call raises because the directory `''` cannot be created |
| Pipeline.TemplateErrorEscapes | convert_pdf_2_png.py:28-44 | as written, when the page-name template does not format and the engine gave pages, the conversion raises: only a failed rename or output directory can come first, when the template raises the PDF has been renamed and is never moved, and when the rename is allowed and both output directories exist it is the template that raises |
| Pipeline.BraceStemRaises | convert_pdf_2_png.py:28-44 | as written, a PDF with pages whose cleaned stem is `a{b}` is never converted: the call raises, and when the rename is allowed and both output directories exist it raises from `format` |
| Pipeline.BraceNameSurvivesCleaning | convert_pdf_2_png.py:157-168 | the sanitiser keeps braces: the cleaned stem of `a{b}.pdf` is `a{b}` |
| Pipeline.ConvertVariantsAgree | convert_pdf_2_png.py:28-51 | for a path with a directory part and no braces in the cleaned stem or the image format, the whole conversion as written and the corrected one coincide |
| Convertor.ConvertorPdf2Png.constructor | convert_pdf_2_png.py:12-26 | the convertor keeps the settings it is given and the filesystem it works on |
| Convertor.ConvertorPdf2Png.ValidateInputFile | convert_pdf_2_png.py:117-125 | returns whether the path is an existing file with a supported extension |
| Convertor.ConvertorPdf2Png.RemoveSpecialCharactersFromFilename | convert_pdf_2_png.py:151-175 | leaves the filesystem and returns exactly as `Pipeline.SanitizeFile` describes for the code as written |
| Convertor.ConvertorPdf2Png.CreateDirectory | convert_pdf_2_png.py:143-149 | leaves the filesystem and returns exactly as `Pipeline.CreateDirectory` describes |
| Convertor.ConvertorPdf2Png.ProcessPopplerOutput | convert_pdf_2_png.py:82-106 | the page loop leaves the filesystem and returns exactly as `Pipeline.ProcessOutput` describes |
| Convertor.ConvertorPdf2Png.MoveProcessedPdf | convert_pdf_2_png.py:127-141 | the move with its retries leaves the filesystem and returns exactly as `Pipeline.Relocate` describes |
| Convertor.ConvertorPdf2Png.ConvertPdfFileToPngFiles | convert_pdf_2_png.py:28-51 | the whole conversion leaves the filesystem and returns exactly as `Pipeline.Convert` describes for the code as written |

## Left out

- The rasterisation engine (`convert_from_path`, with `dpi`, `thread_count` and `limit_images`) is external. Its result, a page list or a failure, is an input of the model.
- `Image.save`: only whether it succeeds is modelled, as a flag for each page. The model does not make a save onto a directory fail by itself: the environment must give `saves = false` for such a page, since with the flag true the path would be both a file and a directory.
- Logging has no effect on the filesystem or on results and is left out, and so is the `__main__` block.
- Configuration loading is left out. The settings the class reads in `__init__` are passed as a `Config` value. `dpi`, `thread_count` and `limit_images` only reach the engine.
- The clock `time.time()` becomes the `millis` reading of each move attempt.
- `os.rename`, `shutil.move` and `Image.save` each take a success flag. It stands for the causes of failure the disk model does not show, such as permissions or a missing parent directory of a rename target.
- Storage.MakeDirs: raises only for causes the disk shows: an empty path, an existing path, or a file at the path or among its ancestors. It has no success flag, so the model does not cover `os.makedirs` failing for other reasons (permissions, a full disk) on a path the disk allows.
- Pipeline.Relocate: the retries of `move_processed_pdf` are bounded by the attempts given. When they run out the model raises `RetriesExhausted`; Python would instead eventually hit its recursion limit.
- TemplateFormat.Format: only `{0}`, `{1}`, `{{` and `}}` are modelled. Any other brace makes the call raise, although Python also accepts forms such as `{0:x}` or `{}`.
- Validation.Lower: lower-cases ASCII letters only. Python's `lower()` also maps non-ASCII letters.
- File names are Dafny strings of Unicode scalar values. Python file names can also hold lone surrogates (undecodable bytes under `surrogateescape`), which the sanitiser turns into `_`; such names cannot be written as a Dafny `string` and are not modelled.
- Paths are compared as spelled. Trailing or doubled slashes, `.` and `..` are not normalised, so two spellings of one directory count as two paths.
- Storage.MoveInto: `shutil.move` is modelled only into an existing directory, which is the only way the class calls it. A failed move is modelled as having no effect on the disk. When the underlying rename fails, `shutil.move` copies and then unlinks; a copy that breaks off leaves a partial file at the target, and a failed unlink leaves a full copy there while the source stays. Neither leftover is represented, so `Pipeline.RelocateMovesOneFile` ("when the move raises, the files are as they were") and `Pipeline.RelocateKeepsFileCount` hold only under this abstraction.
- Storage.Rename: on POSIX the rename replaces an existing file at the target; on Windows it raises instead. Only the POSIX behaviour is modelled.
- The `try` around `set(file_name)` can never fail on a string, so its `except` branch is not modelled.
- The per-character loop of the sanitiser visits the characters of a `set` in an arbitrary order. The model does not fix an order, and proves that the result does not depend on one.

## Findings

| source | as written | input that shows it | evidently intended | confidence | as-written member | corrected member |
|---|---|---|---|---|---|---|
| convert_pdf_2_png.py:157-170 | the new path is always `directory + '/' + name`, even when the directory part is empty | `report.pdf` in the working directory is renamed to `/report.pdf`, at the filesystem root | keep the file in its own directory: no `/` in front when there is no directory part | not executed | Pipeline.SanitizeSendsToRoot | Sanitizer.CleanedPathStaysInDirectory |
| convert_pdf_2_png.py:73-74 | the stem of the file name and the image format are pasted into a `str.format` template unescaped | `a{b}.pdf`: the template becomes `a{b}-pdf-page{0}_from_{1}.png`, and `format` raises on `{b}` | the stem and the format printed literally, with their braces doubled | not executed | Pipeline.BraceStemRaises | Naming.OutputTemplateFormats |
