# youtube_thumbnails in Dafny

A model of the three command-line scripts of the YouTube thumbnail tools, with
proofs about what they send to the image-generation service and what they
write to disk:

- `image-to-image.py` parses `path:description` image arguments and validates
  the files. It builds a prompt that names each described image by position
  and file name. It checks the API key and the image count (1 to 14), sends
  the prompt followed by the images, and saves the first inline image of the
  response (module `ImageToImage`).
- `thumbnail-generator.py` resolves character reference photos: by default
  the first five images, in name order, of `./reference photos`. It prefixes
  the prompt when a style image exists, and attaches the style image, then
  the logos, then the references, dropping files that do not exist. It
  saves the first inline image. A batch run repeats this under the names
  `{root}_v{i}{ext}` (module `ThumbnailGenerator`).
- `generate_image.py` sends a text prompt alone and saves the first inline
  image (module `GenerateImageScript`).

Shared modules:

- `Wrappers`: `Option` and `Result`.
- `Text`: the Python string operations the scripts use. These are `strip`,
  `split(':', 1)`, `os.path.splitext`, the file name of a path, `str(int)`,
  `"\n".join` and `upper()`.
- `Ordering`: Python's string order and `sorted()`.
- `Environment`: the file system and image codec as a value (`Env`), and the
  error reasons.
- `Service`: the parts of a service response and the scan for the first
  inline image.

The file system, the image library and the service are not called. They are
inputs:

- `Env` records which paths exist and which are directories. It also records
  which files open as images, what each glob pattern matches, which inline
  byte strings decode, and which output paths can be written.
- A `Reply` is either a list of response parts or a failed call.
- A batch run gets, for each attempt, the file system that attempt sees
  and the reply it meets.
- `GEMINI_API_KEY` is an `Option<string>` (`None`: unset).
- An exit through `sys.exit(1)`, a printed error followed by a return, and
  an exception that escapes are each told apart in the result types.

Where the code and its documentation differ, the model follows the code:

- `"photo.jpg:"` gives the description `""`, not none. An empty description
  is not used in the prompt.
- Validation stops at the first entry that is missing or does not open. It
  is not the case that all missing files are reported before any unreadable
  one.
- The folder listing is not deduplicated. On a file system where
  `*.jpg` and `*.JPG` match the same files, a photo can be kept twice.
- In the thumbnail generator, a reference folder without images and a file
  that exists but does not open both raise outside any handler. The
  exception ends `main`, so a batch stops at the first variation that raises.

## Model

| member | source | states |
|---|---|---|
| Text.Strip | image-to-image.py:27-29 | `strip()` removes only whitespace from the ends: the result keeps no leading or trailing whitespace, and a string without whitespace is unchanged |
| Text.StripTrims | image-to-image.py:27-29 | the stripped text is the slice of the argument that starts where `lstrip` stops, with only whitespace before it and only whitespace after it |
| Text.StripLeft | image-to-image.py:27-29 | the leading whitespace is removed and nothing else: the result is a suffix and starts with no whitespace |
| Text.StripRight | image-to-image.py:27-29 | the trailing whitespace is removed and nothing else: the result is a prefix and ends with no whitespace |
| Text.IndexOf | image-to-image.py:25-26 | the first position of a character, or none exactly when the character is absent |
| Text.LastIndexOf | image-to-image.py:66 | the last position of a character, -1 exactly when the character is absent |
| Text.FileName | image-to-image.py:66 | `Path(path).name` is the suffix of the path after its last `/` and holds no `/` |
| Text.SplitExt | thumbnail-generator.py:258-259 | `os.path.splitext`: root and extension concatenate back to the path; a non-empty extension starts with its only dot and holds no `/`; it is split off only when the file name has a non-dot before it |
| Text.SplitExtSplits | thumbnail-generator.py:258-259 | the extension is non-empty exactly when the last dot comes after the last `/` with a non-dot before it in the file name; the path is then split at that last dot |
| Text.NatToString | thumbnail-generator.py:262 | `str(i)` is a non-empty string of decimal digits, with at least two digits from 10 on |
| Text.NatToStringValue | thumbnail-generator.py:262 | `str(i)` spells `i`: reading its decimal digits back, most significant first, gives `i` |
| Text.NatToStringInjective | thumbnail-generator.py:262 | different variation numbers give different digit strings |
| Text.NatToStringLeadingDigit | thumbnail-generator.py:262 | `str(i)` has no leading zero: only `0` is spelled starting with `0`, so variation 1 is `_v1`, never `_v01` |
| Text.AsciiUpper | thumbnail-generator.py:34 | `ext.upper()` upper-cases each character in place and keeps the length |
| Text.JoinWith | image-to-image.py:69 | `"\n".join`: no parts give the empty string; otherwise the result starts with the first part and ends with the last |
| Text.JoinWithAppend | image-to-image.py:69 | joining one more part adds the separator and that part at the end |
| Ordering.LeReflexive | thumbnail-generator.py:40 | Python's string order is reflexive |
| Ordering.LeTotal | thumbnail-generator.py:40 | any two strings are comparable |
| Ordering.LeTransitive | thumbnail-generator.py:40 | the string order is transitive |
| Ordering.LeAntisymmetric | thumbnail-generator.py:40 | strings ordered both ways are equal |
| Ordering.ConsSorted | thumbnail-generator.py:40 | a string below every entry, put in front of a sorted list, keeps it sorted |
| Ordering.BelowHead | thumbnail-generator.py:40 | a string below the head of a sorted list is below all of it |
| Ordering.BelowRearranged | thumbnail-generator.py:40 | a bound on every element carries over to any rearrangement |
| Ordering.InsertLength | thumbnail-generator.py:40 | insertion adds one element |
| Ordering.InsertMultiset | thumbnail-generator.py:40 | insertion adds exactly the new element and loses none |
| Ordering.InsertSorted | thumbnail-generator.py:40 | inserting into a sorted list keeps it sorted |
| Ordering.Sort | thumbnail-generator.py:40 | `sorted()` returns an ascending permutation of its input |
| Ordering.HeadIsLeast | thumbnail-generator.py:40 | the head of a sorted list is below every element of it |
| Ordering.TailMultiset | thumbnail-generator.py:40 | dropping the head removes exactly one copy of it |
| Ordering.SortedUnique | thumbnail-generator.py:40 | two ascending permutations of the same strings are equal, so `sorted()` is determined by its input |
| Ordering.SortedPrefixKeepsLeast | thumbnail-generator.py:40 | a prefix of a sorted list is sorted and no element after it is smaller than one in it |
| Ordering.SortedTruncation | thumbnail-generator.py:40 | `sorted(s)[:n]` is sorted, is drawn from `s`, and leaves out nothing smaller than what it keeps |
| Environment.Existing | thumbnail-generator.py:109-116 | filtering by `os.path.exists` keeps exactly the existing paths of the list |
| Environment.ExistingConcat | thumbnail-generator.py:103-116 | filtering a concatenation filters each part, so the order of the groups is kept |
| Environment.FirstUnopenable | image-to-image.py:113-115 | the first path that does not open as an image, or none when all do |
| Environment.FirstUnopenableConcat | thumbnail-generator.py:103-116 | opening `a + b` fails at the first failure in `a`, or else at the first failure in `b` |
| Service.Pictures | image-to-image.py:114-115 | one opened image per path, in the same order |
| Service.FirstImage | image-to-image.py:123-131 | the first part with truthy inline data; none when no part has any |
| Service.FirstImageIgnoresLaterParts | image-to-image.py:131 | the scan stops at the first image, so later parts never change the result |
| Service.TextsOf | image-to-image.py:132-133 | the printed texts are exactly the truthy texts of the parts: a string is printed exactly when some part carries it as a non-empty text, and there are no more texts than parts |
| Service.TextsOfConcat | image-to-image.py:132-133 | texts are printed in the order of their parts: the texts of `a + b` are those of `a` followed by those of `b` |
| Service.SaveImage | image-to-image.py:126-128 | the image is saved exactly when its bytes decode and the output path is writable, and the saved file is that path holding those bytes; otherwise generation fails |
| Service.ImageFromReply | thumbnail-generator.py:121-138 | a failed call is a generation failure; "no image" comes back exactly when the response has no part with inline data; otherwise the result is saving the first such part's bytes to the output path, so it succeeds exactly when they decode and the path is writable |
| Service.TextThenImage | thumbnail-generator.py:125-131 | a text part before an image part does not hide the image; text alone gives no image |
| ImageToImage.ParseImageArg | image-to-image.py:20-29 | an argument without a colon is the stripped path with no description; a description is present exactly when the argument holds a colon |
| ImageToImage.ParseSplitsAtFirstColon | image-to-image.py:25-27 | the argument splits at its first colon: later colons stay in the description, and both halves are stripped |
| ImageToImage.ParseEmptyDescription | image-to-image.py:25-27 | a trailing colon gives an empty description, not none |
| ImageToImage.ParsedSpecs | image-to-image.py:206 | one parsed entry per `-i` argument: entry `k` is the parse of argument `k` |
| ImageToImage.SpecError | image-to-image.py:37-49 | an entry passes exactly when its file exists and opens; the error is "not found" exactly when the file does not exist, and "cannot open" otherwise |
| ImageToImage.FirstInvalid | image-to-image.py:37-49 | the first entry that is missing or does not open; none when every entry is valid |
| ImageToImage.ValidateImages | image-to-image.py:31-51 | returns every entry unchanged when all are valid; otherwise exits with the error of the first invalid entry |
| ImageToImage.ValidationIgnoresLaterEntries | image-to-image.py:38-49 | entries after the first invalid one are never examined |
| ImageToImage.DescriptionLines | image-to-image.py:64-66 | at most one line per entry; the recursive definition is the enumerate-and-filter of lines 64-66, whose meaning is stated by `DescriptionLinesMembers`, `DescriptionLinesExtend` and `LinesIffDescribed` |
| ImageToImage.DescriptionLinesMembers | image-to-image.py:64-66 | the lines are exactly `Image {k+1} (…): …` for each described entry k: every described entry has its line, numbered by its 1-based position, and no other line appears |
| ImageToImage.DescriptionLinesExtend | image-to-image.py:64-66 | one more entry adds its line, numbered by its position, at the end exactly when it is described; the step that keeps the loop invariant of `BuildPromptWithDescriptions` |
| ImageToImage.LinesIffDescribed | image-to-image.py:57-72 | there is a description line exactly when some entry has a truthy description, so the fallback to the base prompt after the loop is never taken |
| ImageToImage.ComposedPrompt | image-to-image.py:53-72 | without any description the base prompt is returned unchanged; otherwise the joined image lines, a blank line, `Generate: ` and the base prompt |
| ImageToImage.BuildPromptWithDescriptions | image-to-image.py:53-72 | the loop builds the composed prompt |
| ImageToImage.JoinTwo | image-to-image.py:69 | joining two lines puts the separator between them |
| ImageToImage.NumberedByPosition | image-to-image.py:64-66 | with only the first and third of three entries described, the lines are those of images 1 and 3: numbers follow the position in the list, not the count of lines |
| ImageToImage.ComposedSkipsUndescribed | image-to-image.py:64-70 | the prompt for those entries is line 1, a newline, line 3, a blank line, `Generate: ` and the base prompt |
| ImageToImage.ImageLineFormat | image-to-image.py:66 | the line of image `i` below ten whose path has no directory is `Image i (path): description` |
| ImageToImage.ImageLineParts | image-to-image.py:66 | the line of a described image starts with `Image ` and ends with its description |
| ImageToImage.Paths | image-to-image.py:114 | the paths of the entries, in order |
| ImageToImage.ImageRequest | image-to-image.py:79-115 | the content is sent exactly when a key is given, 1 to 14 entries are given and every image opens; it is the composed prompt followed by one image per entry, in order |
| ImageToImage.ImageCountBoundaries | image-to-image.py:86-92 | 0 and 15 entries are refused with their own errors; 1 and 14 are accepted |
| ImageToImage.GenerateImage | image-to-image.py:74-119 | sends exactly the request content, or nothing with the error of the first failed check |
| ImageToImage.ScanResponse | image-to-image.py:121-141 | prints the texts before the first inline image, then decodes and saves that image; or gives the reason there is none |
| ImageToImage.RunImageToImage | image-to-image.py:143-219 | `main` validates the parsed arguments before anything is sent; an invalid entry ends the run with nothing sent |
| ThumbnailGenerator.CollectMatches | thumbnail-generator.py:31-34 | the loop gathers the glob matches of each pattern, lower case then upper case, in pattern order |
| ThumbnailGenerator.JoinPathParts | thumbnail-generator.py:33-34 | `os.path.join(folder, pattern)` is the folder, one `/` when the folder does not end in one, then the pattern |
| ThumbnailGenerator.MatchesMembers | thumbnail-generator.py:30-34 | a path is among the collected matches exactly when some pattern, in lower or upper case, joined to the folder, globs it |
| ThumbnailGenerator.KeptReferences | thumbnail-generator.py:39-40 | `sorted(files)[:5]` keeps the smaller of five and the number of matches, in ascending order, all drawn from the matches |
| ThumbnailGenerator.ReferenceImages | thumbnail-generator.py:20-44 | success gives one to five paths; failure happens only on a folder and is "no images found" for that folder |
| ThumbnailGenerator.GetReferenceImages | thumbnail-generator.py:20-44 | collects the matches, raises when there are none, and keeps the first five in sorted order; a path that is not a folder is returned alone |
| ThumbnailGenerator.KeptReferencesOrder | thumbnail-generator.py:39-41 | the kept references are the first five in ascending order, taken from the matches (all of them when there are five or fewer), and no match left out is smaller than one kept |
| ThumbnailGenerator.FolderReferences | thumbnail-generator.py:25-44 | a folder without matches raises; otherwise it gives one to five kept references; a path that is not a folder is returned as a one-element list |
| ThumbnailGenerator.UpperPatterns | thumbnail-generator.py:30-34 | the upper-case patterns are `*.JPG`, `*.JPEG`, `*.PNG` and `*.WEBP` |
| ThumbnailGenerator.SearchPatterns | thumbnail-generator.py:30-34 | the folder is searched for `*.jpg`, `*.JPG`, `*.jpeg`, `*.JPEG`, `*.png`, `*.PNG`, `*.webp` and `*.WEBP`, in that order |
| ThumbnailGenerator.PrefixedIffStyleUsed | thumbnail-generator.py:79-82 | the prompt gets the style sentence in front exactly when a style image is given and exists |
| ThumbnailGenerator.EnhancedPrompt | thumbnail-generator.py:79-82 | the user's prompt always ends the prompt that is sent |
| ThumbnailGenerator.LogoPaths | thumbnail-generator.py:107-108 | no logo is attached exactly when the option is absent, an empty path or an empty list; a single path becomes a one-element list; a list is used whole, in its order |
| ThumbnailGenerator.AppendOpenedShape | thumbnail-generator.py:103-116 | attaching succeeds exactly when every path opens; the content is kept in front and one picture per path follows, in order; a failure names a path of the list that does not open |
| ThumbnailGenerator.AppendOpenedConcat | thumbnail-generator.py:103-116 | attaching two groups one after the other is attaching their concatenation |
| ThumbnailGenerator.ContentLayout | thumbnail-generator.py:99-116 | the content is the prompt, then the existing style image, logos and references in that order; every attached file exists |
| ThumbnailGenerator.RaisesIff | thumbnail-generator.py:71-116 | a call raises exactly when a key is present and building the content raises, whatever the output path and reply; it then sends nothing |
| ThumbnailGenerator.ThumbnailRunSends | thumbnail-generator.py:63-138 | without a key nothing is sent and `None` is returned; content is sent exactly when a key is given and building the content succeeds, and then it is that content and nothing escapes; once sent, the run writes an image exactly when saving the reply's first image succeeds, and then it is that saved image at the output path |
| ThumbnailGenerator.AppendOpenedStep | thumbnail-generator.py:115-116 | attaching one more file either appends its image or raises on it |
| ThumbnailGenerator.AppendOpenedFailureSticks | thumbnail-generator.py:103-116 | once a file fails to open, later files change nothing |
| ThumbnailGenerator.ExistingStep | thumbnail-generator.py:115 | one more path is kept at the end exactly when it exists; the step used by `AttachKeeps` and `AttachFails` in the attaching loop |
| ThumbnailGenerator.AttachKeeps | thumbnail-generator.py:114-116 | a path that exists and opens is appended; a missing one is skipped |
| ThumbnailGenerator.AttachFails | thumbnail-generator.py:115-116 | an existing path that does not open raises |
| ThumbnailGenerator.AttachFailureSticks | thumbnail-generator.py:114-116 | once a prefix of the list raises, the whole list raises the same way |
| ThumbnailGenerator.AttachImages | thumbnail-generator.py:114-116 | the loop appends each existing file, opened, in order, and raises at the first one that does not open |
| ThumbnailGenerator.ResolveReferences | thumbnail-generator.py:72-76 | `None` and a string go through `get_reference_images`; a list is used as given |
| ThumbnailGenerator.SaveFirstImage | thumbnail-generator.py:121-138 | the first inline image of the response is decoded and saved, or `None` is returned with the reason |
| ThumbnailGenerator.GenerateThumbnail | thumbnail-generator.py:47-138 | returns `None` without a key; raises on reference resolution or an unreadable image; otherwise sends the content and returns the saved path or `None` |
| ThumbnailGenerator.VariantNamesDistinct | thumbnail-generator.py:262 | two different variation numbers give two different output names |
| ThumbnailGenerator.VariantNameParts | thumbnail-generator.py:262 | `{base_name}_v{i}{ext}` is the root, `_v`, the decimal digits of `i`, then the extension |
| ThumbnailGenerator.VariantNameSplits | thumbnail-generator.py:258-262 | `splitext` of `{base_name}_v{i}{ext}` gives back `{base_name}_v{i}` and `ext`, for any extension of the shape `splitext` produces |
| ThumbnailGenerator.VariantExtension | thumbnail-generator.py:259 | the output's own extension when `splitext` finds one, `.png` otherwise; either way a dot followed by neither `.` nor `/` |
| ThumbnailGenerator.BatchOutputs | thumbnail-generator.py:246-262 | a single run writes the given path; otherwise variation `i` writes `{root}_v{i}{ext}`, one name per variation, and none when `--batch` is zero or less |
| ThumbnailGenerator.BatchOutputsDistinct | thumbnail-generator.py:258-262 | no two variations of a run write the same file |
| ThumbnailGenerator.RunVariation | thumbnail-generator.py:262-274 | variation `k` is one `generate_thumbnail` call writing `{root}_v{k+1}{ext}`, on the file system and with the reply of attempt `k` |
| ThumbnailGenerator.SameFilesSameRaise | thumbnail-generator.py:266-274 | two variations that see the same files both raise or neither does, whatever their output names and replies |
| ThumbnailGenerator.VariationsAt | thumbnail-generator.py:261-262 | entry `k` of the first `n` variations is variation `k`, the one writing `{root}_v{k+1}{ext}` |
| ThumbnailGenerator.RunVariations | thumbnail-generator.py:261-274 | the attempts made are the first variations in order (attempt `k` is variation `k`); all `n` are made unless one raises, and a raising attempt is the last one made |
| ThumbnailGenerator.RunBatch | thumbnail-generator.py:246-274 | `--batch 1` makes one call writing the given path; otherwise attempt `k` writes the `k`-th batch name; an exception ends the run after the attempt that raised it |
| ThumbnailGenerator.ThumbnailMain | thumbnail-generator.py:234-274 | a missing prompt is a usage error and a missing default folder stops the run, each before any attempt; otherwise one attempt per batch name, in order, until an exception |
| GenerateImageScript.RunGenerateImage | generate_image.py:22-59 | nothing is sent exactly when the key is unset, empty or the placeholder; otherwise the prompt alone is sent and the first inline image is decoded and saved, or an error is printed |

## Left out

- Printing. Progress lines, listings and error text are not modelled. The
  exception is the response texts printed by `image-to-image.py`: they are
  the `shown` result of `ImageToImage.GenerateImage`.
- `genai.configure`, model selection (`--model`), `--aspect-ratio` and
  `--resolution`. They do not change what is sent in this model. The last
  two are not passed to the service by the scripts.
- `load_dotenv` and argument parsing. Arguments arrive already parsed, and
  the key arrives as an `Option<string>`.
- `setup_reference_folder` and `--setup` (thumbnail-generator.py:141-175,
  230-232). They create a folder and print instructions. The model's
  `ThumbnailMain` is `main` without `--setup`.
- The list branch of `get_reference_images` (thumbnail-generator.py:44).
  `generate_thumbnail` passes lists through without calling it, and on POSIX
  `os.path.isdir` refuses a list.
- ThumbnailGenerator.SearchPatterns: globbing is a lookup in `Env`. Case
  sensitivity, hidden files and ordering within one pattern come from the
  file system and are not modelled.
- Text.FileName: `Path.name` is modelled as the text after the last `/`.
  Trailing slashes and `.` components are not normalised.
- ImageToImage.ImageRequest: one set `Env.images` answers both
  `Image.open(path).verify()` in validation and `Image.open(path)` when the
  content is built. A file that changes between the two is not modelled.
- Service.SaveImage: the decoded image and the file written are represented
  by the inline bytes. Pixel content and format conversion on save are not
  modelled.
- GenerateImageScript.RunGenerateImage: the "Full response" text printed
  when no image comes back is not modelled.
- Text.AsciiUpper: upper-casing is modelled for ASCII letters only. The
  patterns it is applied to are ASCII.
- ThumbnailGenerator.RunVariations: the file system each variation meets is an
  input (`envs(k)`). That it holds the files written by earlier variations is
  not derived from their saves.
- Text.SplitExt: paths are POSIX paths. `/` is the only separator for
  `Text.FileName`, `Text.SplitExt` and `ThumbnailGenerator.JoinPath`; `\`
  separators and drive letters are not modelled.
- Concurrency and timing of the service call are not modelled.
