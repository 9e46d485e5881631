# A verified model of mrViewer's media bookkeeping, its ActiveScaffold back office, and two vendored C libraries

This Dafny project models the sequential core of a repository that combines two things: a Rails back-office application with the ActiveScaffold plugin vendored into it, and the mrViewer flipbook player along with the libraries it ships. Each source file of the core has its own module, in its own `.dfy` file:

- `ScaffoldUpdate`, `ScaffoldList`, `ScaffoldSearch` model ActiveScaffold's Update action, List action and Search configuration. This covers how `do_update` runs its transaction, the eager-include union and the pagination decision of `do_list`, the before-filters and the responses, and the memoised default search columns. Persistence (the validations, saves and `find_page`) is passed in as an oracle.
- `SequenceModel` models the four validations of the `Sequence` model.
- `FrameSequence` models mrViewer's image-sequence names: the frame-spec validator, `split_sequence`, `padded_digits`, `fileroot`, and the line rules of `parse_reel`.
- `GuessImage` models stereo view substitution, the name checks of `guess_image`, the first-match walk of `test_image` over the reader table, and the `%` quoting of error messages.
- `AviImage` models the movie reader's bookkeeping:
  - `relativePath` over path components;
  - the magic-number test;
  - the frame cache, kept strictly sorted with one picture per frame, and its trimming window;
  - the video stream guard and the DTS clamp.
- `Playback` models the choice of master clock, the barrier count, and the end-of-range state machine of `check_loop`, `check_decode_loop` and `handle_loop`.
- `Timeline`, `Reels` and `MediaTrack` model the EDL timeline. This covers the slider ranges, the placement of media by `edl(true)` and the frame-to-media index, plus the EDL track editor's moves and trims, which keep a reel chained end to start.
- `ColorInfo` models the clipboard text of "Copy/Color", the colour browser's line filter, and the clamp of a selection to the picture.
- `GLibArray` models GLib's `GArray` and `GPtrArray` as classes over a Dafny array. Each element is one slot, and `len`, `alloc` and the reference count are fields.
- `Utf8ToMac` models FLTK's UTF-8 to MacRoman converter: the sorted 128-entry table, its binary search, and the bounded writer into the destination array.
- `Text` and `Wrappers` are shared helpers: character classes, searching, decimal digits, `sprintf` with one integer argument, and `Option`.

## Model

| member | source | states |
|---|---|---|
| ScaffoldUpdate.DefaultBeforeUpdateSave | rails/assets2d_old/vendor/plugins/active_scaffold/lib/actions/update.rb:75-76 | the default `before_update_save` hook hands the record back untouched |
| ScaffoldUpdate.BothValidationsAlwaysRun | rails/assets2d_old/vendor/plugins/active_scaffold/lib/actions/update.rb:64-65 | whatever the outcome, the calls begin with the parameter mapping, the hook, `valid?` and `associated_valid?`, in that order: the array literal does not short-circuit |
| ScaffoldUpdate.SuccessfulNeedsBothValid | rails/assets2d_old/vendor/plugins/active_scaffold/lib/actions/update.rb:65 | `successful` can only end true when both validations passed |
| ScaffoldUpdate.SavesAttemptedWhen | rails/assets2d_old/vendor/plugins/active_scaffold/lib/actions/update.rb:66 | `save!` is called exactly when both validations passed; `save_associated!` exactly when, in addition, `save!` returned true |
| ScaffoldUpdate.StaleObjectAddsOneError | rails/assets2d_old/vendor/plugins/active_scaffold/lib/actions/update.rb:69-72 | a StaleObjectError from either save appends exactly the one "Version inconsistency" base error, clears `successful`, keeps the attributes and commits nothing |
| ScaffoldUpdate.RecordInvalidLeavesSuccessful | rails/assets2d_old/vendor/plugins/active_scaffold/lib/actions/update.rb:68 | a RecordInvalid from either save is swallowed: `successful` stays true, the record is the prepared one and the transaction commits nothing |
| ScaffoldUpdate.WritesOnlyOnSuccess | rails/assets2d_old/vendor/plugins/active_scaffold/lib/actions/update.rb:60-67 | the database is either left as it was, or, on a successful update, gains the prepared record's write, optionally followed by its associated records' write |
| ScaffoldUpdate.DefaultHookKeepsMappedRecord | rails/assets2d_old/vendor/plugins/active_scaffold/lib/actions/update.rb:62-63 | with the default hook, the stored record has the attributes and label that `update_record_from_params` produced |
| ScaffoldUpdate.RunFilters | rails/assets2d_old/vendor/plugins/active_scaffold/lib/actions/update.rb:3-8 | a request proceeds iff `edit` and `update` are authorized for update and `update` comes as POST or PUT; it is unauthorized iff an edit or update lacks the permission; the redirect to index only happens for `update` |
| ScaffoldUpdate.GetUpdateNeverSaves | rails/assets2d_old/vendor/plugins/active_scaffold/lib/actions/update.rb:5-7 | a GET request to `update` never gets past the filters |
| ScaffoldUpdate.EditResponse | rails/assets2d_old/vendor/plugins/active_scaffold/lib/actions/update.rb:10-25 | HTML renders the update form with its layout iff `successful?`, and otherwise returns to main; JS renders the form partial; every other format is not acceptable |
| ScaffoldUpdate.UpdateResponse | rails/assets2d_old/vendor/plugins/active_scaffold/lib/actions/update.rb:27-46 | HTML returns to main with the "Updated <label>" flash iff successful, and otherwise renders the form; JS renders update.rjs; only an unlisted format is not acceptable |
| ScaffoldUpdate.UpdateController.constructor | rails/assets2d_old/vendor/plugins/active_scaffold/lib/actions/update.rb:10-19 | a controller starts with no record and `@successful` unset, and `successful?` then answers true |
| ScaffoldUpdate.UpdateController.DoUpdate | rails/assets2d_old/vendor/plugins/active_scaffold/lib/actions/update.rb:58-73 | the controller's record, `successful`, committed writes and call trace become exactly those of the `do_update` outcome |
| ScaffoldUpdate.UpdateController.Edit | rails/assets2d_old/vendor/plugins/active_scaffold/lib/actions/update.rb:10-25 | a halted filter leaves the record alone and reports why; otherwise `do_edit` stores the found record and the response follows the format and `successful?` as it stood, which is true for a controller whose flag was never set; nothing is written |
| ScaffoldUpdate.UpdateController.Update | rails/assets2d_old/vendor/plugins/active_scaffold/lib/actions/update.rb:27-46 | a halted filter changes nothing; otherwise the state is the `do_update` outcome and the response is chosen from it |
| ScaffoldList.FlattenMentions | rails/assets2d/vendor/plugins/active_scaffold/lib/actions/list.rb:49 | `flatten` of one include value holds an association name iff the value mentions it at any depth |
| ScaffoldList.FlattenAllMentions | rails/assets2d/vendor/plugins/active_scaffold/lib/actions/list.rb:49 | the flattened collected array holds a name iff some list column's includes mention it |
| ScaffoldList.UniqProperties | rails/assets2d/vendor/plugins/active_scaffold/lib/actions/list.rb:49 | `uniq` keeps every element and only those, without duplicates, and never grows |
| ScaffoldList.CompactProperties | rails/assets2d/vendor/plugins/active_scaffold/lib/actions/list.rb:49 | `compact` keeps exactly the non-nil elements and preserves the absence of duplicates |
| ScaffoldList.IncludesAreTheUnion | rails/assets2d/vendor/plugins/active_scaffold/lib/actions/list.rb:49-50 | the includes added to the joins are duplicate-free and are exactly the names some list column mentions |
| ScaffoldList.PaginateAsWrittenIgnoresFormat | rails/assets2d/vendor/plugins/active_scaffold/lib/actions/list.rb:53 | as written, a request carrying any format parameter is never paginated, because a String never equals a Symbol |
| ScaffoldList.HtmlFormatNotPaginatedAsWritten | rails/assets2d/vendor/plugins/active_scaffold/lib/actions/list.rb:53 | as written, even format "html" with an HTML-accepting client is not paginated |
| ScaffoldList.Paginate | rails/assets2d/vendor/plugins/active_scaffold/lib/actions/list.rb:53 | without a format parameter pagination follows `accepts?(:html, :js)`; with one it holds iff the format is html or js |
| ScaffoldList.PaginateReadingsAgreeWithoutFormat | rails/assets2d/vendor/plugins/active_scaffold/lib/actions/list.rb:53 | the corrected and the as-written tests agree whenever no format parameter is given |
| ScaffoldList.ListOptions | rails/assets2d/vendor/plugins/active_scaffold/lib/actions/list.rb:52-59 | the sorting is always passed on, and `per_page` and `page` are present iff paginating, with the user's values |
| ScaffoldList.ListController.DoList | rails/assets2d/vendor/plugins/active_scaffold/lib/actions/list.rb:48-63 | the joins gain exactly the list includes, the page is `find_page` of the options, and the records are that page's items; whether to paginate is decided by the corrected test `Paginate` (see Findings), so the formats "html" and "js" are paginated |
| ScaffoldList.ListController.List | rails/assets2d/vendor/plugins/active_scaffold/lib/actions/list.rb:32-43 | lists as `do_list` does, with the corrected pagination test `Paginate` (see Findings), and responds by format |
| ScaffoldList.ListResponse | rails/assets2d/vendor/plugins/active_scaffold/lib/actions/list.rb:35-42 | HTML renders the list with its layout; JS and unlisted formats are not acceptable |
| ScaffoldList.ListController.Handle | rails/assets2d/vendor/plugins/active_scaffold/lib/actions/list.rb:3-30 | unauthorized readers are stopped; `index`, `list` and `table` list records, and `update_table` lists only for JS; `update_table` renders the partial for JS and returns to main for HTML; `row` renders the found record; a request that does not list leaves the state unchanged; listing uses the corrected pagination test `Paginate` (see Findings) |
| ScaffoldSearch.DefaultSearchColumnsRaises | rails/assets2d_old/vendor/plugins/active_scaffold/lib/config/search.rb:32 | the default `collect` raises NoMethodError exactly when some searchable column has no database column; `and` short-circuits, so unsearchable virtual columns are harmless |
| ScaffoldSearch.DefaultSearchColumnsMembers | rails/assets2d_old/vendor/plugins/active_scaffold/lib/config/search.rb:32 | a name is a default search column iff it names a searchable column of string or text type |
| ScaffoldSearch.DefaultSearchColumnsSnoc | rails/assets2d_old/vendor/plugins/active_scaffold/lib/config/search.rb:32 | the default list follows the order of the core columns |
| ScaffoldSearch.SearchDefaults.constructor | rails/assets2d_old/vendor/plugins/active_scaffold/lib/config/search.rb:19-23 | the class-level full-text flag starts true |
| ScaffoldSearch.SearchDefaults.SetFullTextSearch | rails/assets2d_old/vendor/plugins/active_scaffold/lib/config/search.rb:19 | `cattr_writer` sets the class-level flag |
| ScaffoldSearch.SearchConfig.constructor | rails/assets2d_old/vendor/plugins/active_scaffold/lib/config/search.rb:2-10 | a new configuration is read-only (`crud_type`), has no columns yet and copies the class-level full-text flag |
| ScaffoldSearch.SearchConfig.SetFullTextSearch | rails/assets2d_old/vendor/plugins/active_scaffold/lib/config/search.rb:42-45 | the instance flag is set and the columns are kept |
| ScaffoldSearch.SearchConfig.SetColumns | rails/assets2d_old/vendor/plugins/active_scaffold/lib/config/search.rb:37-40 | `columns=` stores a new ActionColumns holding the given names and owned by this configuration |
| ScaffoldSearch.SearchConfig.Columns | rails/assets2d_old/vendor/plugins/active_scaffold/lib/config/search.rb:29-35 | the first read computes and memoises the default list, and later reads return the same object; a raised NoMethodError leaves the columns unset |
| SequenceModel.Errors | rails/assets2d/app/models/sequence.rb:4-10 | `valid?` collects one error per failing validation: a blank show id, a name length outside 2..3, the format message, or a name already taken in the show ignoring case |
| SequenceModel.ValidIffAllPass | rails/assets2d/app/models/sequence.rb:4-10 | a sequence is valid iff all four validations pass |
| SequenceModel.CaseInsensitiveClash | rails/assets2d/app/models/sequence.rb:9-10 | two sequences of one show whose names differ only in letter case cannot both be saved |
| SequenceModel.FormatMatchesImpliesAsWritten | rails/assets2d/app/models/sequence.rb:6 | a name of 2 or 3 word characters matches the line-anchored pattern |
| SequenceModel.FormatReadingsAgreeWithoutNewline | rails/assets2d/app/models/sequence.rb:6 | without a newline in the name, the line-anchored pattern and the whole-name reading agree |
| SequenceModel.TrailingNewlineNameAccepted | rails/assets2d/app/models/sequence.rb:5-6 | the name "ab\n" passes the length check and the pattern as written, though it is not two or three word characters |
| FrameSequence.IsValidFrameSpec | mrViewer/src/core/Sequence.cpp:54-70 | the scan accepts a spec iff it starts with '%', '#' or '@', or its characters after the first are digits with exactly one '-' |
| FrameSequence.FrameSpecExamples | mrViewer/src/core/Sequence.cpp:54-70 | "%04d", "#", "@@@" and "1-10" are valid frame specs; "0001" (no range) and "1+2" are not |
| FrameSequence.SplitSequenceScan | mrViewer/src/core/Sequence.cpp:83-155 | the backward pointer scan and the cut compute exactly the split defined by the scan function, out-parameters included |
| FrameSequence.ScanAndLeaf | mrViewer/src/core/Sequence.cpp:96-116 | the scan finds a separator iff the last path component has a '.', and the first one it finds is that component's last '.' |
| FrameSequence.SplitWithoutDot | mrViewer/src/core/Sequence.cpp:116 | a name whose last component has no '.' is not a sequence and the out-parameters are left alone |
| FrameSequence.SplitTwoSeparators | mrViewer/src/core/Sequence.cpp:118-137 | with two separators and fewer than two '-', root + frame + extension is the name, the extension starts at the leaf's last '.', and the result holds iff the extension is not a movie or audio one (any letter case) and the frame is a valid spec |
| FrameSequence.SplitOneSeparator | mrViewer/src/core/Sequence.cpp:138-154 | otherwise the name is a sequence iff the text after the last '.' is digits, '-' and '+' only; it then becomes the frame with an empty extension, and otherwise the extension with an empty frame |
| FrameSequence.PaddedDigits | mrViewer/src/core/Sequence.cpp:351-358 | "#" pads to 4, a spec starting with '@' or '0' pads to its own length, and a spec starting with anything but '%' pads to 1 |
| FrameSequence.PaddedDigitsOfPrintfSpec | mrViewer/src/core/Sequence.cpp:356 | the padding of "%0<n>d" is n, and that of a lone "%" is 0 |
| FrameSequence.PrintfPatternPaddingRoundTrip | mrViewer/src/core/Sequence.cpp:374-384 | reading the padding back from the pattern `fileroot` writes for padding n gives n |
| FrameSequence.Fileroot | mrViewer/src/core/Sequence.cpp:361-388 | a non-sequence name is returned unchanged with false; a sequence gives its root, the printf pattern of its padding and its extension, with true |
| FrameSequence.PrintfPatternPrints | mrViewer/src/core/Sequence.cpp:374-384 | printf of the pattern written for padding n, followed by text without '%', prints the frame number padded to n characters (with zeros when n > 0), then that text |
| FrameSequence.RootPatternPrints | mrViewer/src/core/Sequence.cpp:374-384 | printf of a root and extension without '%' around the pattern for padding n prints the root, the frame number padded to n, and the extension |
| FrameSequence.FilerootPrintsFrame | mrViewer/src/core/Sequence.cpp:361-388 | printf of the `fileroot` of a sequence whose root and extension hold no '%' gives the root, the frame number padded as the frame spec says, and the extension |
| FrameSequence.RangeBlankFrom | mrViewer/src/core/Sequence.cpp:307-319 | the backward scan stops at a blank after position 0 that is followed only by digits and '-' |
| FrameSequence.RootEnd | mrViewer/src/core/Sequence.cpp:314-315 | the blanks overwritten with NUL end the root, which keeps at least its first character |
| FrameSequence.TokenRange | mrViewer/src/core/Sequence.cpp:321-335 | a token without '-' leaves the open range [kMinFrame, kMaxFrame] |
| FrameSequence.ParseEntry | mrViewer/src/core/Sequence.cpp:297-336 | an entry gets an empty audio file |
| FrameSequence.ParseLine | mrViewer/src/core/Sequence.cpp:285-306 | a comment line and a line that is blank after its leading blanks are skipped; a line is the EDL marker iff it is "EDL" after its leading blanks and before its newline |
| FrameSequence.ParseReel | mrViewer/src/core/Sequence.cpp:271-342 | the loop over the lines builds exactly the load list and EDL flag that folding the lines gives, `edl` starting false |
| FrameSequence.ReelStepShape | mrViewer/src/core/Sequence.cpp:290-336 | each line adds one load entry iff it is an entry line and sets `edl` iff it is the EDL marker |
| FrameSequence.ParseLinesCount | mrViewer/src/core/Sequence.cpp:336 | the load list grows by exactly the number of entry lines |
| FrameSequence.ParseLinesEdl | mrViewer/src/core/Sequence.cpp:303-306 | `edl` ends true iff some line is the EDL marker |
| FrameSequence.AudioAttachesToPrevious | mrViewer/src/core/Sequence.cpp:290-295 | an "audio: " line changes only the audio of the last entry, and nothing when the list is empty |
| FrameSequence.AudioLineText | mrViewer/src/core/Sequence.cpp:283-295 | the line "audio: X" with its newline is read as an audio line naming X |
| FrameSequence.LineIsEntry | mrViewer/src/core/Sequence.cpp:285-336 | a line that is not a comment, blank, audio or EDL line is a load entry |
| FrameSequence.EntryOfRootAndToken | mrViewer/src/core/Sequence.cpp:307-336 | "root token", with a token of digits and '-', loads root over the token's range |
| FrameSequence.TokenRangeOfDigits | mrViewer/src/core/Sequence.cpp:324-334 | the token "A-B" is the range [A, B] and "A-" is [A, A] |
| FrameSequence.EntryWithRange | mrViewer/src/core/Sequence.cpp:285-336 | the line "root A-B" loads root over [A, B], and "root A-" loads it over [A, A] |
| FrameSequence.EntryWithoutDash | mrViewer/src/core/Sequence.cpp:321-336 | the line "root A", whose token has no '-', loads root over the open range |
| GuessImage.ViewOf | mrViewer/src/core/guessImage.cpp:113-155 | without a ':' the built-in name is returned; otherwise the left view is the text before the first ':' and the right view the text after it |
| GuessImage.ViewsSplitPairs | mrViewer/src/core/guessImage.cpp:129-132 | left view, ':' and right view put back together give the pair string |
| GuessImage.GetShortView | mrViewer/src/core/guessImage.cpp:113-133 | with MRV_STEREO_CHAR_PAIRS unset or without a ':', the views are "L" and "R" |
| GuessImage.GetLongView | mrViewer/src/core/guessImage.cpp:135-155 | with MRV_STEREO_NAME_PAIRS unset or without a ':', the views are "left" and "right" |
| GuessImage.DefaultViews | mrViewer/src/core/guessImage.cpp:115-116 | the default pairs "L:R" and "left:right" give the views "L", "R", "left" and "right" |
| GuessImage.ParseViewLong | mrViewer/src/core/guessImage.cpp:157-166 | only the first "%V" is replaced, by the long view |
| GuessImage.ParseViewShort | mrViewer/src/core/guessImage.cpp:167-176 | without any "%V", only the first "%v" is replaced, by the short view |
| GuessImage.ParseViewOfMono | mrViewer/src/core/guessImage.cpp:157-178 | a name that holds neither "%V" nor "%v" goes through `parse_view` unchanged |
| GuessImage.CheckName | mrViewer/src/core/guessImage.cpp:187-242 | without frame limits the name is opened as it is; an opened name is stereo iff it holds "%V" or "%v", is at least 4 characters long and is not an XML file or a backup; it is a sequence iff limits are given and `fileroot` recognises it; a stereo name is opened as its left view; a sequence opens `sprintf` of its pattern (of the left view's, for stereo) with the first frame |
| GuessImage.SequenceOpensFirstFrame | mrViewer/src/core/guessImage.cpp:203-238 | with frame limits, a mono sequence whose root and extension hold no '%' opens the file of frame `start`: the root, `start` padded as the frame spec says, and the extension |
| Text.Sprintf | mrViewer/src/core/guessImage.cpp:225-236 | a format without '%' prints as it is |
| Text.SprintfPlainPrefix | mrViewer/src/core/guessImage.cpp:225-236 | text without '%' in front of a format is copied, and the rest printed |
| Text.SprintfConversion | mrViewer/src/core/guessImage.cpp:225-236 | a conversion `%<digits><conv>` prints the integer argument padded to the width the digits give, with zeros when they start with '0' |
| Text.PadIntReadsBack | mrViewer/src/core/guessImage.cpp:225-236 | `atoi` reads the printed, padded frame number back as that number, whatever the width and padding |
| GuessImage.XmlAndBackupsRejected | mrViewer/src/core/guessImage.cpp:213-216 | names ending in ".xml", ".XML" or "~" give no image |
| GuessImage.ShortNameThrows | mrViewer/src/core/guessImage.cpp:213 | without frame limits, a name shorter than four characters makes `substr` throw |
| GuessImage.ImageFiletypes | mrViewer/src/core/guessImage.cpp:73-87 | the table has 11 readers, and the sixth is aviImage's byte test |
| GuessImage.FirstAcceptingIsFirst | mrViewer/src/core/guessImage.cpp:90-111 | no reader is chosen iff none accepts; otherwise the chosen reader accepts and no earlier one does |
| GuessImage.TestImage | mrViewer/src/core/guessImage.cpp:90-111 | the walk over the table returns the first reader whose byte test, or whose name test, accepts |
| GuessImage.FirstAcceptingSkips | mrViewer/src/core/guessImage.cpp:94 | readers that do not accept are passed over in order |
| GuessImage.MoviesGoToAvi | mrViewer/src/core/guessImage.cpp:75-80 | a movie header that none of the first five readers claims goes to aviImage |
| GuessImage.ShortFilesGoToWand | mrViewer/src/core/guessImage.cpp:75-81 | fewer than twelve bytes, no earlier claim and a name ImageMagick accepts go to the wand reader |
| GuessImage.DoublePercentAppend | mrViewer/src/core/guessImage.cpp:257-262 | quoting distributes over concatenation |
| GuessImage.DoublePercentPlain | mrViewer/src/core/guessImage.cpp:257 | a name without '%' is its own quotation |
| GuessImage.DoublePercentLength | mrViewer/src/core/guessImage.cpp:259-261 | each '%' adds exactly one character |
| GuessImage.DoublePercentRoundTrip | mrViewer/src/core/guessImage.cpp:254-265 | printing the quoted name with printf shows the name itself |
| GuessImage.QuotePercent | mrViewer/src/core/guessImage.cpp:254-262 | the quoting loop doubles every '%' of the root and nothing else |
| AviImage.CommonPrefix | mrViewer/src/core/aviImage.cpp:147-152 | the iterators stop where the two element lists first differ, or where either one ends |
| AviImage.DivergeUnique | mrViewer/src/core/aviImage.cpp:147-152 | that divergence point is unique |
| AviImage.RelativePath | mrViewer/src/core/aviImage.cpp:122-167 | different root paths give the absolute path; otherwise the result is a ".." for each element of `relative_to` past the common prefix, followed by the rest of `path` |
| AviImage.RelativePathRoundTrip | mrViewer/src/core/aviImage.cpp:122-167 | walking the relative path from `relative_to` leads back to `path`, when `path` has no ".." element |
| AviImage.RelativeToAncestor | mrViewer/src/core/aviImage.cpp:155-164 | a path relative to itself is empty, and relative to an ancestor it is the remaining elements |
| AviImage.Test | mrViewer/src/core/aviImage.cpp:299-411 | a header shorter than 12 bytes is never claimed (the branch-by-branch rules are the lemmas below) |
| AviImage.RiffNeedsFormType | mrViewer/src/core/aviImage.cpp:351-361 | a RIFF file is claimed iff its form type is "AVI ", "WAVE" or "CDXA" |
| AviImage.WmvNeedsWholeGuid | mrViewer/src/core/aviImage.cpp:320-332 | an ASF header is claimed iff it holds all four words of the GUID |
| AviImage.QuickTimeFallback | mrViewer/src/core/aviImage.cpp:398-409 | a header no earlier branch takes is claimed iff an ftyp, moov, free, mdat or wide atom follows the first word |
| AviImage.Mp4Accepted | mrViewer/src/core/aviImage.cpp:398-409 | an MP4 file that starts with a 24-byte ftyp atom is claimed |
| AviImage.WmvReadsPastTheBuffer | mrViewer/src/core/aviImage.cpp:303-331 | as written, a 12-byte buffer holding the start of an ASF GUID passes the length guard, and the test then reads 16 bytes |
| AviImage.StoredMembers | mrViewer/src/core/aviImage.cpp:1007-1029 | storing puts the new picture into the cache and keeps every cached picture of another frame |
| AviImage.StoredSorted | mrViewer/src/core/aviImage.cpp:1007-1029 | storing keeps the cache strictly sorted by frame |
| AviImage.StoredFrames | mrViewer/src/core/aviImage.cpp:1007-1029 | the cached frames after storing are the old ones plus the new frame |
| AviImage.StoreTwiceKeepsLast | mrViewer/src/core/aviImage.cpp:1017-1024 | storing two pictures of the same frame keeps only the second |
| AviImage.StoredIsInsertion | mrViewer/src/core/aviImage.cpp:1013-1028 | storing is an insertion at the lower bound, replacing a picture of the same frame there |
| AviImage.LowerBound | mrViewer/src/core/aviImage.cpp:1013-1016 | the first position whose frame is not older than f: everything before it is older, nothing after it is |
| AviImage.VideoCache.StoreImage | mrViewer/src/core/aviImage.cpp:1007-1029 | a newer picture is appended, any other is inserted at the lower bound replacing a same-frame picture; the cache stays sorted |
| AviImage.VideoCache.InVideoStore | mrViewer/src/core/aviImage.cpp:2673-2683 | true iff some cached picture has the frame |
| AviImage.VideoWindow | mrViewer/src/core/aviImage.cpp:1199-1219 | backwards, the window is [frame - max, frame], widened down to `_dts`; otherwise [frame - max, frame + max], widened to reach `_dts` on both sides |
| AviImage.WindowHoldsFrameAndDts | mrViewer/src/core/aviImage.cpp:1199-1219 | the window always holds the current frame and, from below, `_dts`; unless playing backwards it holds `_dts` from above too |
| AviImage.KeepInRangeProperties | mrViewer/src/core/aviImage.cpp:1225-1226 | the trim keeps exactly the pictures inside the window, and a sorted cache stays sorted |
| AviImage.RemoveNotInRange | mrViewer/src/core/aviImage.cpp:1225-1226 | `remove_if` followed by `erase` keeps the in-window pictures in order |
| AviImage.VideoCache.LimitVideoStore | mrViewer/src/core/aviImage.cpp:1193-1228 | the cache becomes the in-window pictures of the old cache; it stays sorted and the stream and `_dts` are kept |
| AviImage.NoStreamRejectedAsWritten | mrViewer/src/core/aviImage.cpp:1464 | as written, `unsigned(-1)` is 2^32-1, so "no stream" is rejected whatever the number of streams |
| AviImage.VideoStreamGuardsAgree | mrViewer/src/core/aviImage.cpp:1464 | the as-written and the corrected guards agree on every non-negative index |
| AviImage.VideoCache.VideoStream | mrViewer/src/core/aviImage.cpp:1462-1471 | an accepted index (-1 or an existing stream) is selected and the channel count is reset; a rejected one changes nothing |
| AviImage.ClampDts | mrViewer/src/core/aviImage.cpp:2383-2384 | the DTS is clamped into [first_frame, last_frame]: one inside is kept, one past the end becomes last_frame, one before the start becomes first_frame |
| Playback.MasterSyncType | mrViewer/src/core/mrvPlayback.cpp:183-197 | a video master is kept only when there is a picture, an audio master only when it was asked for or is the video fallback, and an external clock stays external |
| Playback.MasterKeptIffSource | mrViewer/src/core/mrvPlayback.cpp:184-193 | a requested video or audio master is kept iff the stream that drives it is present |
| Playback.VideoFallbackIsNotRechecked | mrViewer/src/core/mrvPlayback.cpp:184-188 | a video master without a picture becomes the audio master even when there is no audio |
| Playback.BarrierThreadCount | mrViewer/src/core/mrvPlayback.cpp:218-225 | between 1 and 4 threads; 1 iff no stream is valid, 4 iff all three are |
| Playback.BarrierCountsStreams | mrViewer/src/core/mrvPlayback.cpp:218-225 | the decode thread plus one per valid video, audio and subtitle stream |
| Playback.LoopBounds | mrViewer/src/core/mrvPlayback.cpp:228-286 | outside an EDL the bounds start from the timeline range shifted by the first frame, and with video or audio the last bound never passes the image's last frame |
| Playback.AtMostOneBoundMoves | mrViewer/src/core/mrvPlayback.cpp:268-286 | outside an EDL at most one bound moves: the last is lowered to the image's end when past it, and only otherwise is the first raised to the image's start |
| Playback.DecodeLoopOutcome | mrViewer/src/core/mrvPlayback.cpp:288-319 | past the last bound the status is loop-at-end and the image loops at last+1; before the first it is loop-at-start at first-1; inside, OK and the image is not told anything |
| Playback.LoopTransition | mrViewer/src/core/mrvPlayback.cpp:355-538 | statuses other than the two loop ends change nothing; the transition never stops the reel nor moves to the next image outside an EDL; a background image never changes the view |
| Playback.LoopingReentersRange | mrViewer/src/core/mrvPlayback.cpp:415-437 | looping or ping-pong puts the frame back inside a non-empty range |
| Playback.PingPongRoundTrip | mrViewer/src/core/mrvPlayback.cpp:425-520 | bouncing at the end and then at the start gives forward play from the first frame again |
| Playback.NoLoopStops | mrViewer/src/core/mrvPlayback.cpp:438-443 | without looping, running off either end stops the image (and the view when in the foreground) and leaves the frame |
| Playback.Player.constructor | mrViewer/src/core/mrvPlayback.cpp:323-330 | a player starts at its frame, stepping forward, with nothing marked |
| Playback.Player.CheckDecodeLoop | mrViewer/src/core/mrvPlayback.cpp:301-319 | returns the status of the bounds check and records the loop mark, leaving the frame, step and playback states |
| Playback.Player.HandleLoop | mrViewer/src/core/mrvPlayback.cpp:323-547 | a missing image, timeline, reel or UI gives "ignore" and changes nothing; otherwise the new state and status are the loop transition for the bounds of the clip |
| Timeline.PlacedFreshReelIsContiguous | mrViewer/src/gui/mrvTimeline.cpp:184-193 | a reel whose media are all unplaced is laid out end to end from frame 0, holding the same media |
| Timeline.PlacedKeepsPositions | mrViewer/src/gui/mrvTimeline.cpp:190-191 | a media that already has a position keeps it |
| Timeline.CoveringFrom | mrViewer/src/gui/mrvTimeline.cpp:718-726 | the first index whose running end (counted from frame 1) passes f; every media before it ends at or before f |
| Timeline.IndexSpecCases | mrViewer/src/gui/mrvTimeline.cpp:698-729 | a frame before the range gives 0, after it the number of media, inside it an index of a media of a non-empty reel (an empty reel wraps to the largest size_t); swapping the bounds changes nothing |
| Timeline.IndexFindsCoveringMedia | mrViewer/src/gui/mrvTimeline.cpp:718-726 | on a reel laid out without gaps from frame 1, a frame inside a media's span gives that media's index |
| Timeline.EndsAreRunningTotals | mrViewer/src/gui/mrvTimeline.cpp:718-726 | on such a reel the end of media k is 1 plus the durations of media 0..k |
| Timeline.StartsGrow | mrViewer/src/gui/mrvTimeline.cpp:718-726 | on such a reel with positive durations, positions never decrease |
| Timeline.Timeline.constructor | mrViewer/src/gui/mrvTimeline.cpp:64-78 | the slider and displayed ranges start as [1, 50], outside EDL mode |
| Timeline.Timeline.DisplayMinimum | mrViewer/src/gui/mrvTimeline.cpp:96-98 | the displayed minimum takes x iff x is not below the slider minimum; nothing else changes |
| Timeline.Timeline.DisplayMaximum | mrViewer/src/gui/mrvTimeline.cpp:117-119 | the displayed maximum takes x iff x is not above the slider maximum; nothing else changes |
| Timeline.Timeline.SetMinimum | mrViewer/src/gui/mrvTimeline.cpp:138-141 | the slider and displayed minimum both become x; nothing else changes |
| Timeline.Timeline.SetMaximum | mrViewer/src/gui/mrvTimeline.cpp:151-154 | the slider and displayed maximum both become x; nothing else changes |
| Timeline.Timeline.Edl | mrViewer/src/gui/mrvTimeline.cpp:164-199 | switching EDL on with a UI sets the range to [1, total duration], places unplaced media at running totals, and clamps the frame into the range, the other fields staying when there is no reel; otherwise only the flag changes |
| Timeline.Timeline.Index | mrViewer/src/gui/mrvTimeline.cpp:698-729 | a missing reel gives 0; otherwise the index is the one the frame's place in the range determines |
| Reels.ChainForwardProperties | mrViewer/src/gui/mrvMediaTrack.cpp:126-132 | re-chaining forward keeps every media's frames, leaves the media before the start index alone, and makes each later media start where its predecessor ends |
| Reels.ChainBackwardProperties | mrViewer/src/gui/mrvMediaTrack.cpp:139-149 | re-chaining backward keeps every media's frames, leaves the media after the start index alone, and makes each earlier media end where its successor starts |
| Reels.IndexOf | mrViewer/src/gui/mrvMediaTrack.cpp:116-124 | the first index holding the media, or none when no index holds it |
| MediaTrack.ShiftedIsContiguous | mrViewer/src/gui/mrvMediaTrack.cpp:108-152 | moving a media keeps every media's frames, puts the media at the requested frame and leaves the reel without gaps or overlaps; when it is first, the reel is simply re-chained forward from it |
| MediaTrack.ShiftedStartIsContiguous | mrViewer/src/gui/mrvMediaTrack.cpp:154-212 | trimming the start changes the media's first frame exactly when diff is smaller than its duration, never its last frame, identity or end frame; every other media keeps its clip (identity and frames), only positions move; and the reel is contiguous again in every case |
| MediaTrack.ShiftedEndProperties | mrViewer/src/gui/mrvMediaTrack.cpp:269-312 | without a media whose new last frame lies in (first, end] nothing changes; otherwise its last frame moves by diff, the media before it stay put and those after it are re-chained |
| MediaTrack.TrimmableIndex | mrViewer/src/gui/mrvMediaTrack.cpp:276-298 | the first index holding the media whose end may be trimmed by diff, or none |
| MediaTrack.RefreshedLayout | mrViewer/src/gui/mrvMediaTrack.cpp:314-336 | after refreshing, the reel holds the same media, starts at frame 1, has no gaps and ends one past its total duration |
| MediaTrack.SameClipsSameTotal | mrViewer/src/gui/mrvMediaTrack.cpp:314-336 | two reels with the same media in the same order have the same total duration |
| MediaTrack.Track.constructor | mrViewer/src/gui/mrvMediaTrack.cpp:20-24 | a track over the given reel and timeline |
| MediaTrack.Track.Add | mrViewer/src/gui/mrvMediaTrack.cpp:40-67 | the media is placed at the given frame, or without one at 1 (fewer than two media) or at the end of the second-to-last; the timeline maximum and display maximum both become that frame plus the last media's duration, and the timeline's other fields stay; without a reel nothing changes |
| MediaTrack.Track.MediaAt | mrViewer/src/gui/mrvMediaTrack.cpp:73-93 | the first media whose span holds the frame, or none when no span holds it |
| MediaTrack.Track.ChainAfter | mrViewer/src/gui/mrvMediaTrack.cpp:126-132 | the loop re-chains forward after the index |
| MediaTrack.Track.ChainBefore | mrViewer/src/gui/mrvMediaTrack.cpp:139-149 | the loop re-chains backward before the index |
| MediaTrack.Track.ShiftMedia | mrViewer/src/gui/mrvMediaTrack.cpp:108-152 | the reel becomes the shifted reel |
| MediaTrack.Track.ShiftMediaStart | mrViewer/src/gui/mrvMediaTrack.cpp:154-212 | the reel becomes the start-trimmed reel |
| MediaTrack.Track.ShiftMediaEnd | mrViewer/src/gui/mrvMediaTrack.cpp:269-312 | the reel becomes the end-trimmed reel |
| MediaTrack.Track.Refresh | mrViewer/src/gui/mrvMediaTrack.cpp:314-336 | the reel becomes the refreshed reel |
| MediaTrack.Track.Minimum | mrViewer/src/gui/mrvMediaTrack.cpp:454-460 | the first media's position, or NOPTS without a reel or without media |
| MediaTrack.Track.Maximum | mrViewer/src/gui/mrvMediaTrack.cpp:462-468 | where the last media ends, or NOPTS without a reel |
| ColorInfo.StripStep | mrViewer/src/gui/mrvColorInfo.cpp:70-80 | one round of stripping makes the line strictly shorter; there is no round when no '@' is followed by a ';' |
| ColorInfo.StripMarkers | mrViewer/src/gui/mrvColorInfo.cpp:70-80 | the stripped line has no '@' followed by a ';' and is no longer than the input |
| ColorInfo.StripMarkersIdempotent | mrViewer/src/gui/mrvColorInfo.cpp:70-80 | stripping a stripped line changes nothing |
| ColorInfo.StripMarkerCases | mrViewer/src/gui/mrvColorInfo.cpp:70-80 | a marker after some text is cut out with the character before it; a marker at the start is cut out alone |
| ColorInfo.FindNonBlank | mrViewer/src/gui/mrvColorInfo.cpp:84-85 | the first position from `from` that is neither a tab nor a space, or none |
| ColorInfo.FindBlankOrEnd | mrViewer/src/gui/mrvColorInfo.cpp:87-88 | the first tab or space from `from` on, or the end of the line |
| ColorInfo.TokensAt | mrViewer/src/gui/mrvColorInfo.cpp:84-91 | every token is a non-empty run without tabs or spaces |
| ColorInfo.CopyTextShape | mrViewer/src/gui/mrvColorInfo.cpp:67-91 | the copied text starts with a space, holds no tab, and lists the same tokens as the cleaned-up line |
| ColorInfo.JoinedHasNoTabs | mrViewer/src/gui/mrvColorInfo.cpp:90 | tokens joined with single spaces contain no tab |
| ColorInfo.TokensOfJoined | mrViewer/src/gui/mrvColorInfo.cpp:82-91 | splitting a space-led joined text gives back the tokens |
| ColorInfo.TokensAtJoined | mrViewer/src/gui/mrvColorInfo.cpp:84-91 | the same, from any position where such a text begins |
| ColorInfo.CopyColor | mrViewer/src/gui/mrvColorInfo.cpp:62-96 | an out-of-range selected line copies nothing; otherwise the copy is the cleaned-up text of that line |
| ColorInfo.RemoveMarkers | mrViewer/src/gui/mrvColorInfo.cpp:70-80 | the loop yields the stripped line |
| ColorInfo.SpaceWords | mrViewer/src/gui/mrvColorInfo.cpp:82-91 | the loop yields a space followed by each token and one space |
| ColorInfo.SelectableLines | mrViewer/src/gui/mrvColorInfo.cpp:140-147 | exactly the lines 1 to 4 and 7 to 10 stay selected |
| ColorInfo.ColorBrowser.constructor | mrViewer/src/gui/mrvColorInfo.cpp:111-114 | a browser starts with no selected line |
| ColorInfo.ColorBrowser.Handle | mrViewer/src/gui/mrvColorInfo.cpp:130-150 | a right push reports whether a line is selected and keeps it; any other event keeps a selectable picked line with the browser's result, and clears the rest with 0 |
| ColorInfo.AxisBoundsInPicture | mrViewer/src/gui/mrvColorInfo.cpp:259-349 | over a non-empty picture the final bounds are ordered pixels inside it, and a selection already inside it is kept |
| ColorInfo.SelectionToCoord | mrViewer/src/gui/mrvColorInfo.cpp:262-270 | the inclusive bounds of the selection, each cut off below at 0 |
| ColorInfo.ClampToPicture | mrViewer/src/gui/mrvColorInfo.cpp:333-349 | the bounds are cut off at the last column and row and then ordered |
| ColorInfo.SelectionBounds | mrViewer/src/gui/mrvColorInfo.cpp:314-349 | the selection's coordinates followed by the clamp give, on each axis, the AxisBounds of the selection, so over a non-empty picture they are ordered pixels inside it |
| GLibArray.PowAtLeastProperties | dependencies/ImageMagick-6.9.3-0-win32/glib/glib/garray.c:759-762 | doubling from a power of two below twice num stops at a power of two that is at least num and less than twice num (or 1) |
| GLibArray.NearestPowIsSmallest | dependencies/ImageMagick-6.9.3-0-win32/glib/glib/garray.c:756-765 | up to 2^31 the result is the smallest power of two at least num, which fits in 32 bits; beyond, num itself |
| GLibArray.NearestPowLoop | dependencies/ImageMagick-6.9.3-0-win32/glib/glib/garray.c:756-765 | the shifting loop, with its guint wrap-around to 0, computes the nearest power |
| GLibArray.RemoveRangeGuardWraps | dependencies/ImageMagick-6.9.3-0-win32/glib/glib/garray.c:669-670 | as written, index 1 and length 2^32-1 pass the guard of a two-element array, and the length would become 3 |
| GLibArray.RemoveRangeGuardsAgree | dependencies/ImageMagick-6.9.3-0-win32/glib/glib/garray.c:669-670 | the written and the intended guards agree whenever index + length does not wrap, and the intended one always implies the written one |
| GLibArray.FirstIndex | dependencies/ImageMagick-6.9.3-0-win32/glib/glib/garray.c:1318-1322 | the first position holding the pointer |
| GLibArray.FastRemovedProperties | dependencies/ImageMagick-6.9.3-0-win32/glib/glib/garray.c:620-646 | removing fast shortens by one, moves the last element into the hole, changes no other slot, and removes exactly that element from the multiset |
| GLibArray.GArray.SizedNew | dependencies/ImageMagick-6.9.3-0-win32/glib/glib/garray.c:184-211 | a new array is empty with one reference, has room for the reserved elements, is zero-terminated when asked, and allocates nothing when neither is asked |
| GLibArray.GArray.MaybeExpand | dependencies/ImageMagick-6.9.3-0-win32/glib/glib/garray.c:767-786 | afterwards there is room for n more elements and the terminator; when more bytes are wanted the allocation becomes the nearest power of two of the wanted size (at least 16) and the elements are kept; otherwise nothing changes |
| GLibArray.GArray.Terminate | dependencies/ImageMagick-6.9.3-0-win32/glib/glib/garray.c:136-139 | a zero-terminated array gets a zero element at its length; the elements are kept |
| GLibArray.GArray.AppendVals | dependencies/ImageMagick-6.9.3-0-win32/glib/glib/garray.c:409-428 | the elements become the old ones followed by the new ones |
| GLibArray.GArray.PrependVals | dependencies/ImageMagick-6.9.3-0-win32/glib/glib/garray.c:462-483 | the elements become the new ones followed by the old ones |
| GLibArray.GArray.InsertVals | dependencies/ImageMagick-6.9.3-0-win32/glib/glib/garray.c:510-533 | the new elements are inserted at the index |
| GLibArray.GArray.SetSize | dependencies/ImageMagick-6.9.3-0-win32/glib/glib/garray.c:545-568 | the length becomes the requested one: truncating keeps the prefix, growing keeps the old elements and zero-fills the new ones when the array clears |
| GLibArray.GArray.Grow | dependencies/ImageMagick-6.9.3-0-win32/glib/glib/garray.c:553-559 | the growing half of set_size |
| GLibArray.GArray.RemoveIndex | dependencies/ImageMagick-6.9.3-0-win32/glib/glib/garray.c:580-606 | an index inside the array is removed and the later elements shift down; any other index changes nothing |
| GLibArray.GArray.RemoveIndexFast | dependencies/ImageMagick-6.9.3-0-win32/glib/glib/garray.c:620-646 | an index inside the array is filled with the last element; any other index changes nothing |
| GLibArray.GArray.RemoveRange | dependencies/ImageMagick-6.9.3-0-win32/glib/glib/garray.c:661-692 | a range inside the array is removed and the later elements shift down; any other range changes nothing |
| GLibArray.GArray.Ref | dependencies/ImageMagick-6.9.3-0-win32/glib/glib/garray.c:252-261 | one more reference, same elements |
| GLibArray.GArray.Unref | dependencies/ImageMagick-6.9.3-0-win32/glib/glib/garray.c:282-290 | one reference fewer; the last one frees the array |
| GLibArray.GArray.Free | dependencies/ImageMagick-6.9.3-0-win32/glib/glib/garray.c:331-383 | one reference fewer; the buffer is returned unless it is freed, and the wrapper is kept, emptied, while references remain |
| GLibArray.GPtrArray.SizedNew | dependencies/ImageMagick-6.9.3-0-win32/glib/glib/garray.c:895-912 | a new array is empty with one reference and room for the reserved pointers, allocating nothing for 0 |
| GLibArray.GPtrArray.MaybeExpand | dependencies/ImageMagick-6.9.3-0-win32/glib/glib/garray.c:1109-1123 | afterwards there is room for n more pointers; when more are needed the allocation becomes the nearest power of two (at least 16) and the pointers are kept; otherwise nothing changes |
| GLibArray.GPtrArray.Add | dependencies/ImageMagick-6.9.3-0-win32/glib/glib/garray.c:1374-1385 | the pointer is appended |
| GLibArray.GPtrArray.Insert | dependencies/ImageMagick-6.9.3-0-win32/glib/glib/garray.c:1398-1421 | an index from -1 to the length is accepted, -1 appending, any other inserting at the index; a rejected index changes nothing |
| GLibArray.GPtrArray.SetSize | dependencies/ImageMagick-6.9.3-0-win32/glib/glib/garray.c:1135-1160 | the length becomes the requested one: truncating keeps the prefix, growing appends NULLs |
| GLibArray.GPtrArray.RemoveIndex | dependencies/ImageMagick-6.9.3-0-win32/glib/glib/garray.c:1174-1200 | an index inside the array is removed and returned, the later pointers shifting down; any other gives NULL and changes nothing |
| GLibArray.GPtrArray.RemoveIndexFast | dependencies/ImageMagick-6.9.3-0-win32/glib/glib/garray.c:1215-1240 | an index inside the array is removed and returned, the last pointer filling the hole; any other gives NULL and changes nothing |
| GLibArray.GPtrArray.RemoveRange | dependencies/ImageMagick-6.9.3-0-win32/glib/glib/garray.c:1257-1291 | a range inside the array is removed and the later pointers shift down; any other range changes nothing |
| GLibArray.GPtrArray.Remove | dependencies/ImageMagick-6.9.3-0-win32/glib/glib/garray.c:1309-1327 | true iff the pointer is present; then its first occurrence alone is removed, keeping the order |
| GLibArray.GPtrArray.RemoveFast | dependencies/ImageMagick-6.9.3-0-win32/glib/glib/garray.c:1345-1364 | true iff the pointer is present; then its first occurrence is filled with the last pointer |
| GLibArray.GPtrArray.Ref | dependencies/ImageMagick-6.9.3-0-win32/glib/glib/garray.c:1003-1013 | one more reference, same pointers |
| GLibArray.GPtrArray.Unref | dependencies/ImageMagick-6.9.3-0-win32/glib/glib/garray.c:1028-1037 | one reference fewer; the last one frees the array |
| GLibArray.GPtrArray.Free | dependencies/ImageMagick-6.9.3-0-win32/glib/glib/garray.c:1058-1107 | one reference fewer; the buffer is returned unless it is freed, and the wrapper is kept, emptied, while references remain |
| Utf8ToMac.MacTable | win64_deps/fltk-2.0-vc14-win64/src/osx/utf8tomac.cxx:1-130 | the table holds the 128 entries of `mactable` |
| Utf8ToMac.StepsUpJoin | win64_deps/fltk-2.0-vc14-win64/src/osx/utf8tomac.cxx:1-130 | two tables that each step up, the first ending below the second's start, step up together |
| Utf8ToMac.StepsUpIsSorted | win64_deps/fltk-2.0-vc14-win64/src/osx/utf8tomac.cxx:1-130 | a table whose neighbours step up is strictly increasing |
| Utf8ToMac.MacTableSorted | win64_deps/fltk-2.0-vc14-win64/src/osx/utf8tomac.cxx:1-130 | the table is strictly sorted by code point, and every code point in it is at least 128 |
| Utf8ToMac.FindUcs | win64_deps/fltk-2.0-vc14-win64/src/osx/utf8tomac.cxx:136-141 | the first row holding the code point, or none when no row holds it |
| Utf8ToMac.ListedRows | win64_deps/fltk-2.0-vc14-win64/src/osx/utf8tomac.cxx:136-142 | in a sorted table, every row's code point maps to that row's byte |
| Utf8ToMac.MacOfCases | win64_deps/fltk-2.0-vc14-win64/src/osx/utf8tomac.cxx:132-143 | code points below 128 map to themselves, every table code point to its MacRoman byte, and every other code point to 127 |
| Utf8ToMac.Search | win64_deps/fltk-2.0-vc14-win64/src/osx/utf8tomac.cxx:134-142 | the binary search over a sorted table gives the listed byte, or 127 when the code point is absent |
| Utf8ToMac.MacLookup | win64_deps/fltk-2.0-vc14-win64/src/osx/utf8tomac.cxx:132-143 | over a sorted table, `maclookup` gives a code point below 128 back unchanged and any other code point its listed byte, or 127 when it is not listed |
| Utf8ToMac.Next | win64_deps/fltk-2.0-vc14-win64/src/osx/utf8tomac.cxx:162-167 | each character consumes at least one byte |
| Utf8ToMac.MacTextNoLonger | win64_deps/fltk-2.0-vc14-win64/src/osx/utf8tomac.cxx:158-182 | the converted text has at most one byte per input byte |
| Utf8ToMac.MacTextOfAscii | win64_deps/fltk-2.0-vc14-win64/src/osx/utf8tomac.cxx:162-164 | ASCII input converts to itself |
| Utf8ToMac.MacTextStep | win64_deps/fltk-2.0-vc14-win64/src/osx/utf8tomac.cxx:161-169 | converting one character yields the next byte of the converted text and leaves the rest of it |
| Utf8ToMac.ConvertChar | win64_deps/fltk-2.0-vc14-win64/src/osx/utf8tomac.cxx:161-169 | one character converts to the MacRoman byte of its code point and advances to the next one |
| Utf8ToMac.Fill | win64_deps/fltk-2.0-vc14-win64/src/osx/utf8tomac.cxx:158-171 | when the text fits, the whole text and a NUL are written; otherwise the first dstlen-1 bytes and a NUL at dstlen-1; no other cell changes |
| Utf8ToMac.Measure | win64_deps/fltk-2.0-vc14-win64/src/osx/utf8tomac.cxx:172-182 | the remaining characters are counted |
| Utf8ToMac.Convert | win64_deps/fltk-2.0-vc14-win64/src/osx/utf8tomac.cxx:152-183 | the result is the length of the whole converted text; with dstlen > 0 dst is NUL-terminated within dstlen bytes, holding the whole text when it fits and its prefix otherwise; nothing past that is written, and dstlen 0 writes nothing |

## Left out

- Persistence in the Rails actions: `find_if_allowed`, `valid?`, `associated_valid?`, `save!`, `save_associated!`, the transaction and `find_page` are an oracle given as a parameter. An exception rolls the transaction back, which restores the writes that were committed before the request. Rendering and `respond_to` become response values. The `as_` translations become their English strings. The `accepts?` content negotiation result is passed in as a boolean.
- The `Sequence` uniqueness check reads the table as a sequence of rows, and does not model the database query.
- File and environment I/O are not modelled. The lines that `fgets` returns to `parse_reel` are a list of strings. The values of MRV_STEREO_CHAR_PAIRS and MRV_STEREO_NAME_PAIRS are parameters. The directory scan of `get_sequence_limits` is not part of this model.
- FrameSequence.Fileroot: the PRId64 conversion is an abstract string parameter. The source writes into `char full[1024]` with `sprintf`, which overflows for a long enough root and extension. C leaves that undefined. The model keeps the whole pattern.
- FrameSequence.TokenRange and FrameSequence.PaddedDigits: C `atoi` returns a 32-bit `int`, and its overflow is undefined. Text.Atoi keeps the exact value of the digits.
- GuessImage.CheckName: the `char name[1024]` buffer is not modelled. A sequence name of 1024 bytes or more overflows it through `sprintf`, and `strncpy(name, …, 1024)` leaves an equally long name unterminated. The model keeps the whole name.
- Text.Sprintf: `sprintf` with one integer argument is modelled only for "%%" and `%[0][width]<conv>`. Any other '%' is copied as text, and each conversion prints the same argument. C leaves further conversions, and conversions of another type, undefined. A negative padding from `padded_digits`, which printf reads as a '-' flag, is copied as text too.
- ScaffoldList.ListController.DoList: decides pagination by the corrected test `Paginate`, not by the test of list.rb:53 as written (`PaginateAsWritten`). So a request with format "html" or "js" is paginated here, where the source never paginates once a format parameter is given.
- ScaffoldList.ListController.List: lists through DoList, so it paginates by the corrected test `Paginate` as well.
- ScaffoldList.ListController.Handle: its listing actions go through DoList, so they paginate by the corrected test `Paginate` as well.
- ScaffoldUpdate.UpdateController.constructor: `successful?` is not defined in these files. It comes from ActiveScaffold's core actions, and is taken to answer true while `@successful` is nil.
- ScaffoldSearch.DefaultSearchColumnsRaises: assumes Ruby 1.9 or later, where nil has no `type` method. On Ruby 1.8, `nil.type` is NilClass, so such a column is skipped without a raise.
- `is_valid_frame_spec`: an empty spec is taken to be invalid. The source reads the character past the terminating NUL there.
- `parse_reel`: a load entry's audio starts as the empty string before any "audio:" line attaches one.
- `relativePath`: the paths are component sequences that are already absolute. `fs::absolute` and the Windows upper-casing are left out.
- `aviImage::test`: the ffmpeg probe after the magic-number branches is not modelled, because no input reaches it.
- The rest of `aviImage.cpp` is not part of this model: decoding, seeking, `sws_scale`, and the allocation of the picture in `store_image` (a picture is its frame and an opaque payload).
- NotInRangeFunctor is not part of this model. It is taken to reject frames outside [first, last].
- CMedia is not part of this model:
  - `duration()` is taken to be last - first + 1;
  - MRV_NOPTS_VALUE is taken to be the smallest signed 64-bit integer.
- Playback.LoopBounds: `av_rescale_q` is taken as the identity, because the frame rates are taken to agree.
- Playback.Player.HandleLoop: covers only reels that are not EDLs. The EDL branches, which move to the next image of the reel, and the clock resets are left out.
- The playback threads, barriers, mutexes and clocks are left out: they are concurrency and floating point.
- Timeline.Timeline: `minimum`, `maximum`, `_display_min` and `_display_max` are `double` in the source, and the model keeps them as integers. So fractional bounds are not modelled, and neither is the truncation by `boost::int64_t(mn)` and `boost::int64_t(mx)` in `index`.
- Timeline.Timeline.DisplayMinimum: the EDL side effects on the image's first frame, `adjust_timeline` and the network message are left out. Timeline.Timeline.DisplayMaximum likewise, for the last frame.
- MediaTrack.Track.ShiftMediaEnd: requires a non-empty reel. On an empty reel the source's `e - 1` wraps and the loop runs past the vector.
- MediaTrack.Track.Maximum: requires a non-empty reel, because the source indexes the vector without a check.
- MediaTrack.Track.Add: requires the reel to hold the media already. The browser appends it before `add` runs.
- The media of a reel are values, with the media object identified by `id`, so the aliasing of shared media objects is not modelled.
- ColorInfo: the FLTK clipboard calls and the pixel statistics, which are floating point, are left out. The browser's labels are passed in.
- GLibArray: `clear_func` and `element_free_func` are left out, their callbacks taken to be unset.
- GLibArray: `g_mem_gc_friendly` is taken to be false.
- GLibArray: the sort functions are left out.
- GLibArray: `realloc` becomes a fresh array holding the old elements.
- GLibArray: the reference counts are plain counters, not atomics.
- GLibArray.GArray.SizedNew: requires `elt_size > 0`, where the source returns NULL.
- GLibArray.GArray.InsertVals: requires an index of at most the length, because the source moves memory outside the array otherwise.
- GLibArray: the methods that grow an array require the wanted byte count to fit in 32 bits. The source would wrap there.
- GLibArray.GPtrArray.SetSize: takes a length of at least 0. The source's negative `gint` length is left out.
- GLibArray.GArray.Free: after a call that keeps the wrapper, the wrapper no longer satisfies `Valid()`. That is because it holds no buffer, not even for the terminator.
- Utf8ToMac.Convert: `utf8decode` is not part of this model. It is a function parameter that consumes at least one byte of a non-empty input. `src` is a byte sequence, not a pointer pair.

## Findings

| source | as written | input that shows it | evidently intended | confidence | as-written member | corrected member |
|---|---|---|---|---|---|---|
| rails/assets2d/app/models/sequence.rb:6 | `/^\w{2,3}$/` uses line anchors | the name "ab\n" passes the length check and the format check | the whole name is two or three word characters (`\A…\z`) | not executed | SequenceModel.TrailingNewlineNameAccepted | SequenceModel.Errors |
| rails/assets2d/vendor/plugins/active_scaffold/lib/actions/list.rb:53 | `[:html, :js].include?(params[:format])` compares Symbols with the String parameter | format "html" from a client that accepts HTML is not paginated | paginate for the html and js formats | not executed | ScaffoldList.HtmlFormatNotPaginatedAsWritten | ScaffoldList.Paginate |
| mrViewer/src/core/aviImage.cpp:1464 | `unsigned(x) >= number_of_video_streams()` also rejects x = -1 | `video_stream(-1)`, which is documented as "no stream", is refused | -1 selects no stream | not executed | AviImage.NoStreamRejectedAsWritten | AviImage.VideoCache.VideoStream |
| mrViewer/src/core/aviImage.cpp:304-331 | the WMV branch reads the word at offset 12 after only 12 bytes are required | a 12-byte buffer holding the first 12 bytes of the ASF GUID | require 16 bytes before reading the last GUID word | not executed | AviImage.WmvReadsPastTheBuffer | AviImage.WmvNeedsWholeGuid |
| dependencies/ImageMagick-6.9.3-0-win32/glib/glib/garray.c:669-670 | `index_ + length <= len` is computed in `guint` and wraps | index 1 and length 2^32-1 on a two-element array pass, and the new length would be 3 | reject ranges that end past the array | not executed | GLibArray.RemoveRangeGuardWraps | GLibArray.GArray.RemoveRange |
| dependencies/ImageMagick-6.9.3-0-win32/glib/glib/garray.c:1266-1267 | the same wrapped guard in `g_ptr_array_remove_range` | index 1 and length 2^32-1 on a two-pointer array | reject ranges that end past the array | not executed | GLibArray.RemoveRangeGuardWraps | GLibArray.GPtrArray.RemoveRange |
