# Segment analyser and extension sorter, modelled in Dafny

The repository has two independent tools, and this project models the core of each.

**The segment analyser (`main.py`, class `Solution`).** It reads segments whose endpoints lie on the boundary of the unit square. For each segment it computes the (left, right) split of the square's area, or one of two errors. It lists the intersection point of every pair of segments' supporting lines that falls inside the square. It reports the points where at least three of those intersections coincide.
- Coordinates are exact `real`s, so the source's equality tests against 0 and 1 carry over unchanged, and so does its determinant formula.
- Geometry (`geometry.dfy`):
  - `AreaRatio` keeps the source's branch order, including the clause repeated in the first test.
  - Each branch's result is proved equal to an area computed independently, by the shoelace formula, of the region the segment cuts off.
  - `Intersect` follows the line coefficients and Cramer's rule. It is proved sound and complete against the two line equations.
- The pairwise loop is generic in `pairs.dfy` and specialised in `analysis.dfy`. It is proved to list each point once for every pair `i < j` meeting there. The counting dictionary is proved to hold each point's multiplicity.
- `Solution` holds the segments read by its constructor. Its methods have the loops of the source, and each is proved against a specification function.

**The extension sorter (`file_sorter.py`, `sort_files_by_extension`).** It moves every regular file met by a directory walk into `<root>/<lower-cased extension>`, renaming it `name_k.ext` with the smallest free `k` on a collision.
- `path_text.dfy` models `os.path.join`, `os.path.splitext` and lower-casing on POSIX paths.
- The file system is a set of file paths and a set of directory paths:
  - the class `Disk` changes them in place;
  - the value `Fs` describes them in the specification.
- The walk is given as its listing: each visited directory with the file names listed in it.
- The specification is a step function `Step`, folded over the listing by `Walk`; once a step fails, the run stays failed.
- The methods follow the source's two nested loops and the counter loop. They are proved to leave the file system and return the result that `SortFiles` prescribes.

The docstring of `sort_files_by_extension` (file_sorter.py:24-34) says hidden files *and directories* are skipped. The code skips only file names starting with a dot, and still walks hidden directories; the model follows the code.

Two behaviours of the code are not described by the docstring, and the model states them:
- after an error the result is `None`, and the moves already made stand;
- the list of moved files can name one path twice (see `MovedListCanRepeat` below).

## Model

| member | source | states |
|---|---|---|
| Geometry.AreaRatio | main.py:24-54 | The classification, with the source's tests in the source's order and its two errors as `Err` values. It has no contract of its own; OffSquareFirst, AreaRatioSucceedsIff, RatioSplitsSquare, CornerSplitOrdered and the split lemmas below state what it computes. |
| Geometry.OffSquareFirst | main.py:26-27 | The "must lay on the sides" error happens exactly when some endpoint coordinate is outside [0, 1]. It is decided before any side is classified. |
| Geometry.AreaRatioSucceedsIff | main.py:24-52 | `area_ratio` succeeds exactly when both endpoints are in the square and the ordered pair (side of p1, side of p2) is one of the eight recognised connections. Otherwise an in-square segment gets "does not connect two sides". |
| Geometry.RatioSplitsSquare | main.py:29-50 | Whenever `area_ratio` succeeds, left + right = 1 and both lie in [0, 1]. |
| Geometry.CornerSplitOrdered | main.py:29-39 | In both corner branches the ratio is (min, max) of the area and its complement: 0 <= left <= 1/2 <= right <= 1. |
| Geometry.TopLeftCornerSplit | main.py:29-34 | Left side to top side: the left ratio is the shoelace area of the triangle cut off at the top-left corner, and the right ratio is the rest. |
| Geometry.BottomRightCornerSplit | main.py:29-34 | Bottom side to right side: the left ratio is the area of the triangle cut off at the bottom-right corner. |
| Geometry.OriginCornerSplit | main.py:35-39 | Left and bottom sides, in either order: the absolute value yields the area of the triangle at the origin, and that area is the left ratio. |
| Geometry.LeftThenBottom | main.py:35-39 | Left side to bottom side: the left ratio is the triangle area at the origin. |
| Geometry.BottomThenLeft | main.py:35-39 | Bottom side to left side: the left ratio is the triangle area at the origin. |
| Geometry.TopRightCornerSplit | main.py:35-39 | Top and right sides, in either order: the left ratio is the area of the triangle cut off at the top-right corner. |
| Geometry.TopThenRight | main.py:35-39 | Top side to right side: the left ratio is the triangle area at (1, 1). |
| Geometry.RightThenTop | main.py:35-39 | Right side to top side: the left ratio is the triangle area at (1, 1). |
| Geometry.NearCornerArea | main.py:29-34 | In the first corner branch, a signed area of m/2 with m in [0, 1] gives the ratio (m/2, 1 - m/2). |
| Geometry.FarCornerArea | main.py:35-39 | In the second corner branch, a signed area of -m/2 with m in [0, 1] gives the ratio (m/2, 1 - m/2), through the absolute value. |
| Geometry.LeftRightSplit | main.py:41-45 | Left side to right side: the area of the quadrilateral below the segment is (y1 + y2)/2, which is the left ratio. |
| Geometry.BottomTopSplit | main.py:46-50 | Bottom side to top side: the area of the quadrilateral left of the segment is (x1 + x2)/2, which is the left ratio. |
| Geometry.HorizontalMidline | main.py:41-45 | (0, 0.5)-(1, 0.5) splits the square 0.5 / 0.5. |
| Geometry.ReversedMidlineRejected | main.py:29-52 | The reversed segment (1, 0.5)-(0, 0.5) matches no pattern and gets "does not connect two sides". |
| Geometry.LineThrough | main.py:70-74 | The line's coefficients (A, B, C) satisfy A·x + B·y = C at both points. A and B both vanish exactly when the points coincide. A point lies on the line exactly when it is collinear with the two points. |
| Geometry.DetIsCrossOfDirections | main.py:76-79 | D is the cross product of the two segments' direction vectors, so D = 0 exactly for parallel or degenerate segments. |
| Geometry.Solve | main.py:79-88 | Cramer's rule with the determinant test and the square test of the source. It has no contract of its own; SolveSound, SolveComplete and UniqueSolution state what it returns. |
| Geometry.Cramer | main.py:80-85 | The point (Dx/D, Dy/D). It has no contract of its own; CramerSolves states that it lies on both lines. |
| Geometry.SolveSound | main.py:79-88 | A returned point lies in the closed unit square and on both lines. D = 0 returns nothing. |
| Geometry.CramerSolves | main.py:80-85 | x = Dx/D and y = Dy/D satisfy both line equations. |
| Geometry.UniqueSolution | main.py:79-85 | When D is not 0, any common solution of the two equations is Cramer's (Dx/D, Dy/D). |
| Geometry.SolveComplete | main.py:79-87 | When D is not 0, every point of the square on both lines is the one returned. |
| Geometry.Intersect | main.py:66-88 | `segment_intersection` returns only points of the square lying on both supporting lines, and nothing for parallel segments. |
| Geometry.IntersectComplete | main.py:66-87 | For non-parallel segments, a point of the square on both supporting lines is returned, whether or not it lies within either bounded segment. |
| Geometry.DegenerateNeverIntersects | main.py:79-88 | A segment with equal endpoints intersects nothing, in either argument position. |
| Geometry.ParallelExample | main.py:79-88 | Two distinct horizontal segments give no intersection. |
| Pairs.VisitedMembers | main.py:58-63 | After the loops have reached row i, column j, the pairs visited so far that meet at p are exactly the pairs a < b before (i, j), in row-major order, that meet at p. |
| Pairs.VisitedCount | main.py:58-63 | At every point of the nested loops, the partial list holds p exactly once for each visited pair that meets at p. |
| Pairs.AllMeetingsCount | main.py:56-64 | The finished list holds p exactly once per pair i < j meeting at p, and holds p at all exactly when such a pair exists. |
| SegmentAnalysis.Tokens | main.py:12 | `split()` yields non-empty tokens without whitespace, where whitespace is the set of characters `str.isspace` accepts (ASCII and Unicode). |
| SegmentAnalysis.NoBreakSpaceSeparates | main.py:12 | A no-break space (U+00A0) separates tokens as a space does, as in `str.split()`. |
| SegmentAnalysis.ParseLine | main.py:12-19 | One line: exactly five tokens whose four coordinates and number parse give a segment, anything else is skipped. It has no contract of its own; MalformedLineSkipped and ThreeTokenLineSkipped state its skip rule. |
| SegmentAnalysis.ReadSegments | main.py:8-22 | The loop keeps, in file order, the segment of every line with exactly five tokens whose numbers parse. |
| SegmentAnalysis.ParseAllAppend | main.py:11-19 | Reading lines a then b yields the segments of a followed by those of b. |
| SegmentAnalysis.MalformedLineSkipped | main.py:12-15 | A line whose token count is not five contributes no segment, wherever it stands. |
| SegmentAnalysis.ThreeTokenLineSkipped | main.py:12-15 | "1 2 3" is skipped whatever the number parsers say. |
| SegmentAnalysis.PairIntersectionsCount | main.py:56-64 | Duplicates are kept: each point occurs once for each pair i < j whose supporting lines meet there inside the square. |
| SegmentAnalysis.Distinct | main.py:92-97 | The dictionary's keys in insertion order: the same points as the list, none twice. |
| SegmentAnalysis.TallyCounts | main.py:92-97 | The counting dictionary has exactly the listed points as keys, each mapped to its number of occurrences. |
| SegmentAnalysis.Frequent | main.py:99 | The comprehension keeps exactly the keys counted at least three times, and keeps them distinct. |
| SegmentAnalysis.TriplePointsExact | main.py:90-104 | The triple points are exactly the points occurring at least three times in the intersection list, each once. |
| SegmentAnalysis.ConcurrentLinesGiveTriple | main.py:56-104 | Three pairwise non-parallel segments whose supporting lines pass through one point q of the square make q a triple point. |
| SegmentAnalysis.CountNext | main.py:93-97 | One more point raises its count by one, or enters it with count 1 and appends it to the key order. |
| SegmentAnalysis.FrequentNext | main.py:99 | Each key of the dictionary has a count, and the comprehension appends it exactly when that count is at least 3. |
| SegmentAnalysis.CountPoints | main.py:92-97 | The counting loop builds the tally of the list, with keys in first-occurrence order. |
| SegmentAnalysis.CountTriples | main.py:92-104 | Counting, then filtering, returns the triple points of the list. |
| SegmentAnalysis.Solution.constructor | main.py:4-6 | The object holds the segments read from its input lines. |
| SegmentAnalysis.Solution.FindIntersections | main.py:56-64 | The nested loops return the pairwise intersection list. |
| SegmentAnalysis.Solution.FindTripleIntersections | main.py:90-104 | Returns the triple points of the pairwise intersection list. |
| SegmentAnalysis.Solution.RunAnalysis | main.py:106-129 | The report pairs each segment's number with its ratio or error, in order, then gives the intersection list and the triple points. |
| PathText.Join | file_sorter.py:52-76 | `os.path.join` on POSIX paths: an absolute name replaces the directory, otherwise a separator is added unless the directory ends in one. It has no contract of its own; JoinInjective states that distinct names stay distinct. |
| PathText.Extension | file_sorter.py:59 | The lower-cased extension without its dot. It has no contract of its own; ExtensionPlain, ExtensionOf, DotFileHasNoExtension, DotsOnlyStemHasNoExtension and ExtensionExamples state what it gives. |
| PathText.JoinInjective | file_sorter.py:70-76 | Joining two names of the same kind (both relative, or both absolute) to one directory gives equal paths only for equal names. |
| PathText.SplitExt | file_sorter.py:59 | The stem followed by the extension is the original name. |
| PathText.SplitExtShape | file_sorter.py:59 | The extension is empty or a dot followed by no further dot and no separator. A non-empty extension leaves a non-empty stem. |
| PathText.SplitExtIff | file_sorter.py:59 | The extension is non-empty exactly when the last path component has a dot after some non-dot character. So leading dots do not separate an extension. |
| PathText.LastIndexLast | file_sorter.py:59 | The found index is the last occurrence: no later character matches. |
| PathText.LowerAt | file_sorter.py:59 | Lower-casing maps each character by itself and keeps the length. |
| PathText.LowerIdempotent | file_sorter.py:59 | Lower-casing twice is lower-casing once. It changes only upper-case letters and leaves none. |
| PathText.ExtensionPlain | file_sorter.py:59 | The extension used for the folder name contains neither a dot nor a separator. |
| PathText.SplitExtOf | file_sorter.py:75 | A simple name stem.ext splits into (stem, ".ext"). |
| PathText.ExtensionOf | file_sorter.py:59 | The folder name of stem.ext is the lower-cased ext. |
| PathText.DotFileHasNoExtension | file_sorter.py:59-63 | ".bashrc" has an empty extension and is skipped. |
| PathText.DotsOnlyStemHasNoExtension | file_sorter.py:59-63 | "..x" has an empty extension. |
| PathText.ExtensionExamples | file_sorter.py:59 | "Photo.JPG" goes to "jpg" and "archive.tar.gz" goes to "gz". |
| PathText.Decimal | file_sorter.py:76 | The counter is written with at least one digit, and with exactly one digit for counters below 10. |
| PathText.DecimalInjective | file_sorter.py:76 | Distinct counters are written differently. |
| PathText.Numbered | file_sorter.py:75-76 | name_k.ext is longer than the name by exactly the underscore and the digits of k. |
| PathText.NumberedInjective | file_sorter.py:73-77 | Distinct counters give distinct names, and no counter gives back the original name. |
| PathText.NumberedAbsolute | file_sorter.py:75-76 | Numbering a name does not change whether it is absolute. |
| FileSorter.CandidateInjective | file_sorter.py:70-77 | The paths tried by the counter loop are pairwise distinct. |
| FileSorter.TriedSize | file_sorter.py:73-77 | The first n candidates are n distinct paths. |
| FileSorter.CandidatesOccupy | file_sorter.py:73-77 | While the loop runs, every candidate tried is an existing path, so at most as many tries as existing paths: the loop terminates. |
| FileSorter.FirstFree | file_sorter.py:73-77 | The counter stops at the smallest k whose candidate is free; all earlier candidates exist. |
| FileSorter.TargetPath | file_sorter.py:70-77 | The first candidate that does not exist. It has no contract of its own; TargetPathFirstFree states it. |
| FileSorter.TargetPathFirstFree | file_sorter.py:70-77 | The chosen target did not exist, and every candidate before it did. |
| FileSorter.Step | file_sorter.py:49-81 | One listed file, with the skips, the folder creation, the counter and the move in the source's order. It has no contract of its own; SkipRules, HiddenOnlyByName, StepMoved, StepTargetFresh, SelfCollisionRenamed, StepPreserves and FailedKeepsFiles state what it does. |
| FileSorter.SkipRules | file_sorter.py:49-63 | A listed name is skipped exactly when it is hidden (with the flag set), its path is not a file, or its extension is empty. |
| FileSorter.HiddenOnlyByName | file_sorter.py:46-50 | The flag acts only through the file's own name. A visible name in a hidden directory is handled the same with or without it. |
| FileSorter.StepMoved | file_sorter.py:49-81 | A move requires all of the following: the file exists, is not hidden (with the flag set), has an extension, and its move is not refused. It creates root/ext and puts the file at the first free candidate there, removing the old path. |
| FileSorter.StepTargetFresh | file_sorter.py:70-81 | The target of a move did not exist before, is not the extension folder, and is a file afterwards: nothing is overwritten. |
| FileSorter.SelfCollisionRenamed | file_sorter.py:70-77 | A file already at its own target collides with itself and is renamed name_k.ext for some k >= 1. |
| FileSorter.StepPreserves | file_sorter.py:65-81 | A step keeps files and directories apart. A move keeps the number of files, and a failure keeps the files unchanged. Directories are only added. |
| FileSorter.FailedKeepsFiles | file_sorter.py:67 | A failing step (a file where the folder should be, or a refused move) changes no file. |
| FileSorter.FailureStops | file_sorter.py:87-92 | After the first error nothing more happens: later entries leave a failed run unchanged. |
| FileSorter.WalkPreserves | file_sorter.py:46-81 | Over the whole walk: files and directories stay apart, the number of files is kept, directories are only added, and the moved list only grows. |
| FileSorter.ApplyExtends | file_sorter.py:81 | Each step only appends to the moved list. |
| FileSorter.MoveKeeps | file_sorter.py:80-81 | Take a duplicate-free moved list of existing files, and a move whose source is not in it. The move keeps the list duplicate-free, and every listed path still a file. |
| FileSorter.ApplyKeeps | file_sorter.py:47-81 | Any step whose listed path is not already in the moved list keeps the moved list duplicate-free, with every listed path still a file. |
| FileSorter.MovedDistinct | file_sorter.py:46-81 | moved_files is duplicate-free, and names only existing files, when no listed file's path is one the run has moved something to. |
| FileSorter.MovedListCanRepeat | file_sorter.py:46-81 | Suppose root r already has a folder t that is walked after r. Then a.t from r and a.t from r/z are both moved to r/t/a.t, and the list is [r/t/a.t, r/t/a_1.t, r/t/a.t]. |
| FileSorter.SecondMove | file_sorter.py:70-80 | A file listed again inside its own extension folder collides with itself and is moved to a_1.t. |
| FileSorter.WalkDirIs | file_sorter.py:47-81 | The inner loop over one directory's names performs the same steps as the flattened walk over those entries. |
| FileSorter.WalkTreeIs | file_sorter.py:46-81 | The two nested loops perform the flattened walk in order. |
| FileSorter.WalkDirFailed | file_sorter.py:87-92 | Once a step in a directory fails, the rest of that directory changes nothing. |
| FileSorter.WalkTreeFailed | file_sorter.py:87-92 | Once a step fails, the remaining directories change nothing. |
| FileSorter.SortFiles | file_sorter.py:38-92 | The whole call: None with no change for an invalid root; otherwise the walk folded step by step, None after an error, else the moved list. It has no contract of its own; FailureStops, WalkPreserves, MovedDistinct and MovedListCanRepeat state its properties, and Disk.SortFilesByExtension is proved to end as it says. |
| FileSorter.TreeIsWalk | file_sorter.py:38-85 | For a valid root, the call's result is the outer loop run to its end: the moved list, or None after a failure. |
| FileSorter.Disk.ChooseTarget | file_sorter.py:70-77 | The counter loop returns the first free candidate, which does not exist. |
| FileSorter.Disk.Visit | file_sorter.py:49-81 | One listed file changes the tree and reports skip, move or failure exactly as the step function prescribes. |
| FileSorter.Disk.Record | file_sorter.py:47-81 | One inner-loop iteration, including the append to moved_files, advances the run by the next listed name. |
| FileSorter.Disk.SortListed | file_sorter.py:47-81 | The inner loop leaves the tree and moved_files as the run over that directory's names prescribes, and stops at the first failure. |
| FileSorter.Disk.SortFilesByExtension | file_sorter.py:20-92 | An invalid root gives None with no change. Otherwise the tree ends as the walk leaves it, and the result is the list of targets, or None after an error, with earlier moves standing. |

## Left out

- File reading in `read_segments`: the lines are a parameter. `float()` and `int()` are the parameters `parseFloat` and `parseInt`, which return `None` where the source raises `ValueError`. Which strings they accept is not modelled.
- `print`, the 4-decimal formatting and the "none found" messages. `RunAnalysis` returns a `Report` value instead of printing.
- The `Main` class, `main()`, the command-line argument and `setup_logging`: these are glue and logging only.
- IEEE-754 floating point: coordinates are exact reals. Rounding can make the source merge or split points that the model treats otherwise, and make `D != 0` hold or fail differently.
- `os.walk` itself: the listing of visited directories and their file names is an input. Its order, and whether folders created during the walk are visited, are whatever the listing says.
- `os.path.isfile` is membership in the set of files. Symbolic links, special files and cross-device behaviour of `shutil.move` are not modelled: a move removes the source and adds the target.
- Errors are collapsed into one failure outcome. The modelled causes are `makedirs` meeting a file at `<root>/<ext>` and a move the system refuses (the `denied` set of source paths). Other exceptions, such as I/O errors or a file removed by another process, are not modelled.
- Lower: maps only ASCII letters. Python's `str.lower` also lower-cases non-ASCII letters.
- Tokens: states that tokens are non-empty and contain no whitespace, but not that they cover every non-whitespace run of the line in order. The function's body is that definition.
- `os.path.join` and `os.path.splitext` follow POSIX (`posixpath`) rules. Windows path rules are not modelled.
- MovedDistinct: proved only when no listed file's path is already in the moved list. The property does not hold for every walk, as `MovedListCanRepeat` shows.
