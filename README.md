# hugo-editor: post identity, save and listing

A Dafny model of the part of `hugo-editor` that decides where a blog post
lives on disk and reads posts back. The HTTP handlers, templates, git and
the Hugo processes sit around this part and are not modelled.

- **Front matter.** A post's text is split into lines. Each line is trimmed.
  The block between the first two `---` lines is scanned for `title:` and
  `date:`, and the last matching line wins (`FrontMatter`).
- **Dates.** The save path reads the year and month from the front-matter
  date. That date may be RFC 3339, `2006-01-02`, or `2006-01-02 15:04:05`.
  When none of these parses, the clock supplies them (`Dates`).
- **Slug and file name.** The title is lower-cased, every character outside
  `[\w\s-]` is deleted, and each run of whitespace becomes `-`. The file
  name is `YYYY_MM_slug.md` (`Slug`, `Filename`).
- **Save.** Empty content is refused. A new post goes to its derived name,
  or to a name stamped `-YYYYMMDD-HHMMSS` when that one exists. An existing
  post is renamed to its derived name when that name is free
  (`Store.PostStore`, specified by `Store.SaveTo`).
- **Listing and reading.** The content directory is walked. Directories and
  files not named `*.md` (in any letter case) are skipped. A missing title
  falls back to the file name's stem and a missing date to the
  modification day. The posts are sorted newest first (`Posts`, `Listing`,
  `Store.PostStore.GetPost`).

The content directory is the map `PostStore.files` from relative path to
text. The directory walk is a sequence of `Listing.Entry` values. The
clock is an `Instant` parameter.

Three behaviours of the handler deserve note; the model follows the code:

- **A rename conflict still writes.** When an existing post's derived name
  is taken by another file, the handler reports "Duplicated path name". It
  then still writes the content to the post's old path (main.go:593-600).
  `Store.SaveConflict` states this.
- **The stamped name is not checked.** A new post whose derived name is
  taken goes to the stamped name. Nothing checks that the stamped name is
  free, so a file already there is overwritten (main.go:568-574).
  `Store.SaveStampedOverwrites` states this.
- **A failed rename writes to the old path.** When the old file does not
  exist, `os.Rename` fails and the content is written to the old path,
  recreating the file there (main.go:587-600). `Store.SaveRenameFails`
  states this, and `Store.SaveAgain` shows that the next save of the same
  content performs the rename.

## Model

| member | source | states |
|---|---|---|
| Text.TrimLeftSpec | cmd/hugo-editor/main.go:168 | `strings.TrimLeft` keeps a suffix, removes only characters of the cut set, and stops at a character outside it |
| Text.TrimRightSpec | cmd/hugo-editor/main.go:168 | `strings.TrimRight` keeps a prefix, removes only cut characters, and stops at a character outside the set |
| Text.TrimEnds | cmd/hugo-editor/main.go:181 | after `strings.Trim`, neither end of the result is a cut character |
| Text.TrimIdempotent | cmd/hugo-editor/main.go:181 | trimming twice is the same as trimming once |
| Text.TrimIsSlice | cmd/hugo-editor/main.go:179-181 | Trim removes exactly a run of cut characters at each end; the rest is a contiguous slice of the input |
| Text.TrimPrefix | cmd/hugo-editor/main.go:179 | when `s` starts with `p`, `p` followed by the result is `s`; otherwise the result is `s` |
| Text.TrimSuffix | cmd/hugo-editor/main.go:190 | when `s` ends with `p`, the result followed by `p` is `s`; otherwise the result is `s` (also used for the file name on line 263) |
| Text.Lower | cmd/hugo-editor/main.go:554 | lower-casing keeps the length, turns each upper-case ASCII letter into its lower-case letter and leaves every other character as it is |
| Text.LowerKeepsLower | cmd/hugo-editor/main.go:554 | lower-casing a string with no upper-case letter changes nothing |
| Text.Split | cmd/hugo-editor/main.go:165 | `strings.Split` yields at least one piece, and no piece contains the separator |
| Text.JoinSplit | cmd/hugo-editor/main.go:165 | joining the pieces of a split with the separator gives back the original text |
| Text.SplitJoin | cmd/hugo-editor/main.go:165 | splitting a join of separator-free pieces gives back those pieces |
| Text.SplitAfter | cmd/hugo-editor/main.go:503 | the text before the first separator is the first line, and the rest splits on its own |
| Text.LessIrreflexive | cmd/hugo-editor/main.go:211-212 | no date string sorts before itself under Go's `>` on strings |
| Text.LessAsymmetric | cmd/hugo-editor/main.go:211-212 | string order is asymmetric |
| Text.LessTotal | cmd/hugo-editor/main.go:211-212 | any two distinct strings are ordered one way or the other |
| Text.LessTransitive | cmd/hugo-editor/main.go:211-212 | string order is transitive |
| Text.NotLessTransitive | cmd/hugo-editor/main.go:211-212 | "not older than" is transitive, which the sorted order relies on |
| Dates.Pad | cmd/hugo-editor/main.go:500-501 | zero-padded formatting gives exactly `w` digits |
| Dates.PadValue | cmd/hugo-editor/main.go:500-501 | a number below 10^w is read back from its zero-padded form |
| Dates.StampShape | cmd/hugo-editor/main.go:569 | the `20060102-150405` stamp is 15 characters: 8 digits, `-`, 6 digits |
| Dates.ParsesRFC3339 | cmd/hugo-editor/main.go:535 | defines when `time.Parse(time.RFC3339, v)` succeeds: a calendar date, `T`, a clock of hour (one or two digits, below 24), minutes and seconds below 60, an optional fraction, then `Z` or an offset `±hh:mm`; its properties are stated by `ResolveDate`, `LayoutsExclusive` and `SampleRFC3339` |
| Dates.ParsesDate | cmd/hugo-editor/main.go:538 | defines when `time.Parse("2006-01-02", v)` succeeds: exactly a calendar date with a day that exists in its month; stated by `ResolveDate`, `LayoutsExclusive`, `SampleDate` and `DateTextRoundTrip` |
| Dates.DropBlanks | cmd/hugo-editor/main.go:541 | drops exactly the leading run of U+0020 spaces: the result is a suffix that does not start with a space, and everything removed was a space |
| Dates.ParsesDateTime | cmd/hugo-editor/main.go:541 | defines when `time.Parse("2006-01-02 15:04:05", v)` succeeds: a calendar date, a run of one or more spaces, and a clock with nothing after it; stated by `ResolveDate`, `LayoutsExclusive`, `SampleDateTime` and `SampleDateTimeSpaces` |
| Dates.ResolveDate | cmd/hugo-editor/main.go:533-549 | a value yields a year and month exactly when one of the three layouts parses it (the space layout accepting a run of spaces); the year is its first 4 digits and the month its digits 6-7, from 01 to 12 |
| Dates.LayoutsExclusive | cmd/hugo-editor/main.go:535-542 | no value parses under two layouts, so the order of the fallbacks does not matter |
| Dates.SampleDate | cmd/hugo-editor/main.go:538 | `2023-05-14` parses as the plain date layout and gives year 2023, month 05 |
| Dates.SampleMarchDate | cmd/hugo-editor/main.go:538 | `2024-03-01` parses as the plain date layout and gives year 2024, month 03 |
| Dates.SampleRFC3339 | cmd/hugo-editor/main.go:535 | `2023-05-14T10:00:00Z` parses as RFC 3339 and gives year 2023, month 05 |
| Dates.SampleDateTime | cmd/hugo-editor/main.go:541 | `2023-05-14 10:00:00` parses with the space layout and gives year 2023, month 05 |
| Dates.DropBlanksAt | cmd/hugo-editor/main.go:541 | dropping leading spaces stops exactly at the first character that is not a space |
| Dates.DateTimeAfterBlanks | cmd/hugo-editor/main.go:533-549 | a calendar date, any non-empty run of spaces and a clock with nothing after it resolve to the date's year and month |
| Dates.SampleDateTimeSpaces | cmd/hugo-editor/main.go:541 | `2023-05-14  10:00:00`, with two spaces, also parses with the space layout and gives year 2023, month 05 |
| Dates.DateTextRoundTrip | cmd/hugo-editor/main.go:195 | the `2006-01-02` fallback date of any calendar day parses back to that day's year and month |
| FrontMatter.TrimAll | cmd/hugo-editor/main.go:166-168 | each scanned line is the trimmed source line, in order |
| FrontMatter.FindDelimiter | cmd/hugo-editor/main.go:169-176 | finds the first `---` line at or after a position, or the end when there is none |
| FrontMatter.Block | cmd/hugo-editor/main.go:169-176 | defines the lines the scan reads: those after the first `---` line up to the next one or the end; stated by `BlockBetween`, `BlockHasNoDelimiter`, `BlockAbsent` and the two `BlockIgnores` lemmas |
| FrontMatter.BlockHasNoDelimiter | cmd/hugo-editor/main.go:169-176 | the scanned block never contains a `---` line |
| FrontMatter.BlockBetween | cmd/hugo-editor/main.go:169-176 | the block is exactly the lines strictly between the first `---` and the next one (or the end) |
| FrontMatter.BlockAbsent | cmd/hugo-editor/main.go:169-176 | text without a `---` line has an empty block, so no field is read |
| FrontMatter.SplitTwoLines | cmd/hugo-editor/main.go:165 | a text that opens with `---`, two lines and `---` splits into those four lines followed by the pieces of the rest |
| FrontMatter.TwoLineBlock | cmd/hugo-editor/main.go:165-176 | such a text, with two trimmed lines that are not `---`, has exactly those two lines as its block |
| FrontMatter.BlockIgnoresLaterLines | cmd/hugo-editor/main.go:169-174 | nothing after the closing `---` affects the block |
| FrontMatter.BlockIgnoresEarlierLines | cmd/hugo-editor/main.go:169-177 | lines before the opening `---` are ignored |
| FrontMatter.TitleValueTrimmed | cmd/hugo-editor/main.go:179-181 | a title value has no quote at either end and is no longer than the trimmed field |
| FrontMatter.KeysExclusive | cmd/hugo-editor/main.go:178-183 | no line starts with both `title:` and `date:` |
| FrontMatter.ListTitle | cmd/hugo-editor/main.go:178-181 | defines the listing's title as that of the last `title:` line of the block, or empty; stated by `ListTitleLastWins` and `ScanFrontMatter` |
| FrontMatter.ListDate | cmd/hugo-editor/main.go:182-183 | defines the listing's date as that of the last `date:` line of the block, or empty; stated by `ListDateLastWins` and `ScanFrontMatter` |
| FrontMatter.ListTitleLastWins | cmd/hugo-editor/main.go:178-181 | the last `title:` line of the block gives the title |
| FrontMatter.ListDateLastWins | cmd/hugo-editor/main.go:182-183 | the last `date:` line of the block gives the date |
| FrontMatter.ListTitleAbsent | cmd/hugo-editor/main.go:178-181 | a block with no `title:` line gives an empty listing title, so the file-name fallback applies |
| FrontMatter.ListDateAbsent | cmd/hugo-editor/main.go:182-183 | a block with no `date:` line gives an empty listing date, so the modification-day fallback applies |
| FrontMatter.FieldOfLine | cmd/hugo-editor/main.go:179 | the value of `key` followed by a space and a value with no white space at either end is that value |
| FrontMatter.Unquote | cmd/hugo-editor/main.go:181 | a double-quoted word with no quote at either end loses exactly its two quotes |
| FrontMatter.TwoFieldsListed | cmd/hugo-editor/main.go:163-186 | a post whose block is a `title:` line then a `date:` line is listed with that title value and that date value |
| FrontMatter.SampleTitleValue | cmd/hugo-editor/main.go:179-181 | the line `title: "My Title"` gives the title `My Title` |
| FrontMatter.SampleDateValue | cmd/hugo-editor/main.go:183 | the line `date: 2024-01-02` gives the date `2024-01-02` |
| FrontMatter.SampleLinesPlain | cmd/hugo-editor/main.go:168 | those two sample lines are already trimmed, contain no newline and are not `---` |
| FrontMatter.SampleListedFields | cmd/hugo-editor/main.go:163-186 | the post `---`, `title: "My Title"`, `date: 2024-01-02`, `---`, `body` is listed with title `My Title` and date `2024-01-02` |
| FrontMatter.ScanField | cmd/hugo-editor/main.go:177-184 | a block line starting with `title:` or `date:` replaces that field and any other line changes neither, as the last-line-wins functions say |
| FrontMatter.ScanFrontMatter | cmd/hugo-editor/main.go:163-186 | the scan loop returns the title and date of the last matching lines inside the first `---` block |
| FrontMatter.SaveTitleNonEmpty | cmd/hugo-editor/main.go:497-521 | the save path's title is never empty |
| FrontMatter.SaveTitle | cmd/hugo-editor/main.go:497-521 | defines the save path's title: the last non-empty title value of the block, or `new-post`; stated by `SaveTitleNonEmpty`, `SaveTitleDefault`, `SaveTitleLastWins` and `ScanForSave` |
| FrontMatter.SaveTitleDefault | cmd/hugo-editor/main.go:497-521 | when every `title:` line of the block has an empty value (or there is none), the title is `new-post` |
| FrontMatter.SaveTitleLastWins | cmd/hugo-editor/main.go:515-521 | a `title:` line with a non-empty value, followed by no other such line, gives the title |
| FrontMatter.SaveYearMonth | cmd/hugo-editor/main.go:498-549 | defines the save path's year and month: those of the last date line that parses, or the clock's; stated by `SaveYearMonthShape`, `SaveYearMonthFallsBack`, `SaveDateLastWins` and `ScanForSave` |
| FrontMatter.SaveDateLastWins | cmd/hugo-editor/main.go:524-549 | a `date:` line that parses, followed by no other date line that parses, gives the year and month |
| FrontMatter.TwoFieldsSaved | cmd/hugo-editor/main.go:496-551 | for a block of a `title:` line then a `date:` line, a non-empty title value is the save path's title and a date that parses gives its year and month |
| FrontMatter.SaveYearMonthShape | cmd/hugo-editor/main.go:499-549 | the save path's year is 4 digits and its month 2 digits from 01 to 12 |
| FrontMatter.SaveYearMonthFallsBack | cmd/hugo-editor/main.go:499-549 | when no date line parses, the year and month are the clock's |
| FrontMatter.SaveSnoc | cmd/hugo-editor/main.go:515-549 | a later non-empty title replaces the earlier one; a later date that parses replaces the year and month; anything else changes neither |
| FrontMatter.ScanForSave | cmd/hugo-editor/main.go:496-551 | the save loop returns the title and the year and month its specification functions give |
| Slug.WordChars | cmd/hugo-editor/main.go:555 | the word characters of a string, in order: a character occurs in the result exactly when it is a word character of the string |
| Slug.DeleteNonWord | cmd/hugo-editor/main.go:555 | defines the deletion of every character outside `[\w\s-]`; stated by `DeleteNonWordWords`, `DeleteNonWordAppend` and the slug lemmas |
| Slug.Collapse | cmd/hugo-editor/main.go:556 | replacing each whitespace run by one `-` never lengthens the text and leaves it empty exactly when it was empty |
| Slug.Slugify | cmd/hugo-editor/main.go:554-556 | defines the slug as lower-casing, then the deletion, then the collapse; stated by `SlugAlphabet`, `SlugKeepsWords`, `SlugFixedPoint`, `SlugWordThen` and `SlugExample` |
| Slug.SlugAlphabet | cmd/hugo-editor/main.go:554-556 | every slug character is in `a-z0-9_-` |
| Slug.SlugKeepsWords | cmd/hugo-editor/main.go:554-556 | the slug keeps every word character of the lower-cased title, in order |
| Slug.SlugFixedPoint | cmd/hugo-editor/main.go:554-556 | slugifying a slug changes nothing |
| Slug.DeleteNonWordWords | cmd/hugo-editor/main.go:555 | deleting `[^\w\s-]` keeps every word character |
| Slug.CollapseWords | cmd/hugo-editor/main.go:556 | replacing whitespace runs with `-` keeps every word character |
| Slug.CollapseAppend | cmd/hugo-editor/main.go:556 | whitespace runs are replaced independently on either side of a non-space boundary |
| Slug.SlugOfWord | cmd/hugo-editor/main.go:554-556 | a title of word characters only is just lower-cased |
| Slug.SlugWordThen | cmd/hugo-editor/main.go:554-556 | a word, then punctuation, then whitespace, then the rest gives the lower-cased word, `-`, and the rest's slug |
| Slug.SlugExample | cmd/hugo-editor/main.go:554-556 | `Hello, World!  Foo` becomes `hello-world-foo` |
| Slug.SampleFirstPost | cmd/hugo-editor/main.go:554-556 | `First Post` becomes `first-post` |
| Slug.LowerFirstPost | cmd/hugo-editor/main.go:554 | `First` and `Post` lower-case to `first` and `post` |
| Filename.ComposeName | cmd/hugo-editor/main.go:559 | the `%s_%s_%s.md` name is as long as its three parts plus 5 and ends in `.md`; `ParseCompose` reads the parts back |
| Filename.ParseCompose | cmd/hugo-editor/main.go:559 | a composed `YYYY_MM_slug.md` name reads back into its year, month and slug |
| Filename.ComposeParse | cmd/hugo-editor/main.go:559 | every name of that shape is the composition of what it reads back into |
| Filename.DerivedName | cmd/hugo-editor/main.go:553-559 | defines the save path's name from the derived year, month and slug; stated by `DerivedNameShape` |
| Filename.StampedName | cmd/hugo-editor/main.go:569-571 | defines the stamped name, the slug followed by `-` and the clock's stamp; stated by `StampedNameShape` and `StampedNameDiffers` |
| Filename.DerivedNameShape | cmd/hugo-editor/main.go:554-559 | a derived name always has the `YYYY_MM_slug.md` shape, with a month from 01 to 12 and a slug in `a-z0-9_-` |
| Filename.StampedNameShape | cmd/hugo-editor/main.go:569-571 | the stamped name has the derived year and month, and the slug followed by `-` and the stamp |
| Filename.StampedNameDiffers | cmd/hugo-editor/main.go:569-571 | the stamped name is 16 characters longer than the derived one, so it differs |
| Filename.SampleSaveLines | cmd/hugo-editor/main.go:503-506 | the lines `title: "First Post"` and `date: 2024-03-01` are already trimmed, contain no newline, are not `---` and carry their keys |
| Filename.SampleSaveValues | cmd/hugo-editor/main.go:515-549 | they give the title `First Post` and the year and month 2024 and 03 |
| Filename.SampleComposeName | cmd/hugo-editor/main.go:559 | year 2024, month 03 and slug `first-post` compose to `2024_03_first-post.md` |
| Filename.SampleDerivedName | cmd/hugo-editor/main.go:496-559 | a post with title `First Post` and date 2024-03-01 gets the name `2024_03_first-post.md`, whatever the clock says |
| Posts.Ext | cmd/hugo-editor/main.go:190 | defines `filepath.Ext`: from the last dot of the last path element, or empty; stated by `ExtSpec` |
| Posts.ExtSpec | cmd/hugo-editor/main.go:190 | `filepath.Ext` is a suffix of the name that starts with its only dot and contains no separator, and it is empty only when the last element has no dot |
| Posts.StemExt | cmd/hugo-editor/main.go:190 | the stem followed by the extension is the name |
| Posts.MarkdownChars | cmd/hugo-editor/main.go:146 | the lower-cased name ends in `.md` exactly when it ends in a dot, an `m` or `M`, and a `d` or `D` |
| Posts.MarkdownExt | cmd/hugo-editor/main.go:146-190 | a markdown name's extension is its last three characters, and its stem is the rest |
| Posts.TrimTrailingSlashes | cmd/hugo-editor/main.go:263 | the result is a prefix of the path that does not end in a separator, and everything removed was a separator |
| Posts.LastElementSpec | cmd/hugo-editor/main.go:263 | the last element is a separator-free suffix of the path that reaches back to the previous separator or to the start |
| Posts.Base | cmd/hugo-editor/main.go:263 | defines `filepath.Base`; stated by `BaseSpec` |
| Posts.BaseSpec | cmd/hugo-editor/main.go:263 | `filepath.Base` is `.` for the empty path and `/` for a path of separators only; otherwise it is the whole last element after trailing separators are removed, a separator-free suffix reaching back to the previous separator or to the start |
| Posts.ReadPost | cmd/hugo-editor/main.go:162-196 | the post keeps its path and text and always has a date; its title and date are stated by `ReadPostTitle` and `ReadPostDate` |
| Posts.ReadPostFile | cmd/hugo-editor/main.go:163-196 | scanning with the fallbacks yields the post `ReadPost` describes |
| Posts.ReadPostTitle | cmd/hugo-editor/main.go:261-264 | the title is the front-matter title, or else the file name without `.md` |
| Posts.ReadPostDate | cmd/hugo-editor/main.go:266-269 | the date is never empty: it is the front-matter date, or else the modification day, which parses back |
| Listing.ListedEntries | cmd/hugo-editor/main.go:140-148 | the entries the walk reads are exactly the non-directory `.md` files |
| Listing.Collect | cmd/hugo-editor/main.go:135-208 | a successful walk yields at most one post per entry; failure and contents are stated by `CollectFails`, `CollectPosts` and `CollectFailureSticks` |
| Listing.CollectFailureSticks | cmd/hugo-editor/main.go:157-208 | once a file fails to read, the listing ends with that failure |
| Listing.HasUnreadableSnoc | cmd/hugo-editor/main.go:157-160 | an unreadable markdown file is among the earlier entries or is the last one |
| Listing.CollectFails | cmd/hugo-editor/main.go:157-208 | the listing fails exactly when some markdown file cannot be read |
| Listing.CollectPosts | cmd/hugo-editor/main.go:135-203 | a successful listing has one post per markdown file, in walk order, with its path, title and date and no text |
| Listing.SortNewestFirst | cmd/hugo-editor/main.go:210-213 | the array ends newest first and is a permutation of what it held |
| Listing.Insert | cmd/hugo-editor/main.go:210-213 | moving one post into a sorted prefix keeps that prefix sorted and keeps the same posts |
| Listing.Swap | cmd/hugo-editor/main.go:210-213 | exchanging two neighbours permutes the array |
| Listing.InsertionDone | cmd/hugo-editor/main.go:210-213 | a post that stopped between a not-older neighbour and strictly older posts leaves the prefix sorted |
| Listing.ReadPosts | cmd/hugo-editor/main.go:135-208 | the walk callback produces the posts in walk order, or the first read failure |
| Listing.ListPosts | cmd/hugo-editor/main.go:131-216 | the listing fails exactly when a markdown file cannot be read; otherwise it holds the same posts, newest first |
| Store.SaveTo | cmd/hugo-editor/main.go:561-600 | a saved post lands at its old path, its derived name or the stamped name, and a duplicate is reported only for an existing post whose derived name is another file; the lemmas below state the rest |
| Store.SaveSpec | cmd/hugo-editor/main.go:491-600 | a post saved anywhere but its old path lands at a name of the `YYYY_MM_slug.md` shape |
| Store.PostStore.constructor | cmd/hugo-editor/main.go:133 | the store starts with the given files of the content directory |
| Store.PostStore.WritePost | cmd/hugo-editor/main.go:280-295 | writing creates or overwrites exactly one file |
| Store.PostStore.Rename | cmd/hugo-editor/main.go:587-590 | a rename succeeds exactly when the old file exists, and moves its text to the new name |
| Store.PostStore.Save | cmd/hugo-editor/main.go:491-600 | the save leaves the files and answer that `SaveSpec` gives for the old files |
| Store.PostStore.Place | cmd/hugo-editor/main.go:561-600 | choosing and writing the file matches `SaveTo` |
| Store.PostStore.GetPost | cmd/hugo-editor/main.go:219-277 | reading fails exactly when the file is missing; otherwise it yields the file's post with its text |
| Store.SaveRejectsEmpty | cmd/hugo-editor/main.go:491-494 | a save is refused exactly when the content is empty, and a refused save changes no file |
| Store.SaveStoresContent | cmd/hugo-editor/main.go:600 | every accepted save leaves the content at the path it answers with |
| Store.SaveTouchesOnly | cmd/hugo-editor/main.go:561-600 | only the answered path and the renamed post's old path change; no other file appears |
| Store.SaveFileCount | cmd/hugo-editor/main.go:561-600 | a save never lowers the number of files and adds at most one |
| Store.SaveNewPost | cmd/hugo-editor/main.go:561-575 | a new post takes its derived name when it is free; otherwise the file there is kept and the post gets the stamped name |
| Store.SampleSaveNewPost | cmd/hugo-editor/main.go:561-600 | a new post with title `First Post` and date 2024-03-01 is saved as `2024_03_first-post.md` when no file has that name, and no other file changes |
| Store.SaveStampedOverwrites | cmd/hugo-editor/main.go:568-574 | the stamped name is not checked: a file already there is overwritten |
| Store.SaveInPlace | cmd/hugo-editor/main.go:582-600 | an existing post already at its derived name is overwritten in place: no rename, no duplicate, and no other file changes |
| Store.SaveRenames | cmd/hugo-editor/main.go:582-591 | a post whose derived name is free is moved there: the old path is gone and the file count is unchanged |
| Store.SaveConflict | cmd/hugo-editor/main.go:592-600 | a taken derived name is reported as a duplicate and left alone, and the content still goes to the old path |
| Store.SaveRenameFails | cmd/hugo-editor/main.go:583-600 | when the old file is missing the rename fails and the content recreates the old path |
| Store.SaveAgain | cmd/hugo-editor/main.go:561-600 | saving again at the answered path changes no file and reports a duplicate exactly when the post is not at its derived name; after a failed rename the second save performs the rename |

## Left out

- HTTP handling is not modelled: methods, multipart forms, JSON and template rendering. The save's answer is the `SaveOutcome` value.
- The Hugo server process, publishing and the git commands are not modelled, and neither are flag parsing and `main`.
- The file mutex is not modelled. The model is sequential.
- `Post.IsNew` is not modelled. The core never sets it.
- Store.PostStore.WritePost: failures of `os.MkdirAll` and `os.WriteFile` are not modelled. A write always succeeds.
- Store.PostStore.Rename: failures other than a missing old file are not modelled, such as permissions or `MkdirAll` errors.
- Store.SaveTo: `os.Stat` failures other than a missing file are not modelled. The map answers whether a file exists.
- Store.PostStore.GetPost: the failure value is the path, not the OS error text. A file that exists but cannot be read is not modelled.
- Store.PostStore.Save: both clock reads (lines 499 and 569) are the single `now` parameter, so a save that straddles a second boundary is not modelled.
- Store.PostStore.Place: the stamped name is computed before it is known to be needed. It is a pure value, so the files and answer are unchanged.
- Paths are compared as strings. `filepath.Join` cleaning, so that `a//b` and `a/b` name the same file, is not modelled.
- Listing.ReadPosts: walk errors other than an unreadable markdown file are not modelled, including `filepath.Rel` errors. The walk order is the order of the given entries.
- Listing.SortNewestFirst: `sort.Slice` is not stable, and the order it gives posts with equal dates is not modelled. The contract states only order and permutation, which is all the source promises.
- Text.Lower: only ASCII letters are lower-cased. Unicode case mapping is not modelled.
- Text.TrimSpace: only ASCII white space is trimmed. Unicode spaces are not.
- Text.Less: strings compare by code point, which is the same as Go's comparison of their UTF-8 bytes. Invalid UTF-8 is not modelled.
- Dates.ResolveDate: `time.Parse` is modelled for these three layouts only, and only as far as the year and month the save path uses. Time-zone shifts do not change the written year and month. Month and day names, and Go's other layout elements, do not occur in these layouts.
