# Manuscript figure, table and bibliography scripts — a Dafny model

This project models the deterministic logic inside the manuscript-preparation scripts of a
scientific-paper repository. Each script sits in `paper/scripts/python/` and has its own Dafny
module:

| script | module | what is modelled |
|---|---|---|
| `tile_panels.py` | `TilePanels` (`tile_panels.dfy`) | panel discovery by file name, the grid table, the canonical panel size, canvas size and row-major placement, pasting into a white canvas (a class over a 2-D array), the outline-then-fill label plans as a log of draw calls, the success/failure outcome of `tile_images` and `main` |
| `csv_to_latex.py` | `CsvToLatex` (`csv_to_latex.dfy`) | the thirteen ordered LaTeX replace passes, row truncation, table number and name from the file name, the `\tabcolsep` choice, header, body (separator row, row colour), caption, label, and the whole written document |
| `explore_bibtex.py` | `Bibtex` (`explore_bibtex.dfy`) | entry-map parsing of `Papers.from_bibtex`, the `Papers.filter` passes, stable `sorted` and `sort_by` with missing values last, `\cite{...}` key collection over the five manuscript sections, column truncation and row cap of the papers table, the citation statistics (upper median) |
| `crop_tif.py` | `CropTif` (`crop_tif.dfy`) | the content-box fallback, crop-window clamping, the exact cropped size, the `resize_image` decision and scale, output-path rules, and the batch over a directory |
| `optimize_figure.py` | `OptimizeFigure` (`optimize_figure.dfy`) | `compute_optimal_size` over exact rationals, the padded whitespace crop, the default output name, the resize decision and the extension-dependent save options |
| `generate_ai2_prompt.py` | `GenerateAi2Prompt` (`generate_ai2_prompt.dfy`) | whole-line `%` comment removal of `read_tex_content` and the two prompt templates |
| `pptx2tif.py` | `Pptx2Tif` (`pptx2tif.dfy`) | slide output naming, both converters' error paths and output lists, method dispatch, the in-place crop of every output, and the batch over a directory |

Shared modules model the Python built-ins the scripts rely on, over ASCII:
- `Wrappers` holds `Option` and `Result`.
- `Strings` holds `split`, `join`, `strip`, `replace`, `title`, `str(int)` and `int(str)`.
- `Paths` holds `os.path.join`, `basename`, `dirname`, `splitext`, `pathlib` stems and child paths, and the listing and walk comprehensions of the batch scripts.
- `Numeric` holds `int()` truncation of a real, `min`/`max`, and scaled lengths.

Everything outside the scripts is a parameter:
- directory listings and walks are sequences;
- image decoding becomes "size or nothing";
- content bounding boxes are given;
- font loadability, file reads, subprocess outcomes, installed packages, and `abspath`/`relpath` are functions or flags.

Images are sizes, not pixels, except for the composite canvas of `tile_panels.py`. Its pixels are
"white" or "pixel (sx, sy) of panel L", so pasting can be observed and proved.

Floating-point quotients in `compute_optimal_size` and `resize_image` are exact rationals. Double
rounding is abstracted away, and `int()` truncates toward zero.

Behaviours worth knowing:
- The upscaling branch of `compute_optimal_size` ignores the maxima. `OptimizeFigure.UpscaleIgnoresMaxima` shows a 1500 × 1000 image with 2000-pixel maxima growing to 2400 × 1600.
- When two files carry the same panel letter, `detect_panels` keeps the last one listed: a later dict assignment overwrites an earlier one. `TilePanels.PanelMapLastMatch` states this.
- A very thin image can lose a whole side when shrunk. In `crop_tif.py` a 10000 × 1 strip at the 2000 × 2000 defaults scales to 2000 × 0 and `cv2.resize` raises (`CropTif.ResizeExamples`); in `optimize_figure.py` a 4000 × 1 image is computed as 2000 × 0 and the run returns `None` (`OptimizeFigure.OptimizeThinStripFails`).

## Model

| member | source | states |
|---|---|---|
| `TilePanels.FigureIdPrefix` | paper/scripts/python/tile_panels.py:47 | the figure id is the base name up to its first `_`, or the whole base name when it has none |
| `TilePanels.PanelLetter` | paper/scripts/python/tile_panels.py:50-57 | a name matching `<id>[a-zA-Z]_*.jpg` yields an upper-case letter `A`..`Z` |
| `TilePanels.PanelLetterFromStem` | paper/scripts/python/tile_panels.py:52-57 | the index `len(figure_id)` lies inside the file stem, and the label is the stem's character there, upper-cased |
| `TilePanels.PanelMap` | paper/scripts/python/tile_panels.py:43-58 | for a figure id taken literally, every key of the discovered mapping is an upper-case letter |
| `TilePanels.PanelMapDomain` | paper/scripts/python/tile_panels.py:50-58 | a label is discovered if and only if some listed file is `<id><letter>_*.jpg` with that letter, the id matched literally |
| `TilePanels.PanelMapLastMatch` | paper/scripts/python/tile_panels.py:44-58 | a discovered label maps to `str(Path(search_dir) / name)` for the last listed file carrying it, and no later file carries it |
| `TilePanels.LastMatchExtends` | paper/scripts/python/tile_panels.py:50-58 | listing one more file without the label keeps the last match where it was |
| `TilePanels.SortedItems` | paper/scripts/python/tile_panels.py:60 | the sorted items are exactly the mapping's entries, every key appears, and the labels strictly increase |
| `TilePanels.DetectPanels` | paper/scripts/python/tile_panels.py:41-60 | the result holds exactly the discovered label→path entries (the id matched literally, each path spelled as `pathlib` spells the glob result) in strictly increasing label order, and is empty if and only if nothing matched |
| `TilePanels.CeilSqrtFrom` | paper/scripts/python/tile_panels.py:79 | the result `r` is the ceiling of √n: `r·r >= n` and `(r−1)² < n` |
| `TilePanels.LayoutFits` | paper/scripts/python/tile_panels.py:63-81 | for every n ≥ 1, `rows·cols >= n` and `1 <= rows <= cols`; from 10 on, `cols` is the least c with `c·c >= n` and `rows` is `ceil(n / cols)` |
| `TilePanels.LayoutTable` | paper/scripts/python/tile_panels.py:65-81 | the table values for 1..9 panels, `(2, 3)` for 0 panels, and `(3, 4)` for 11 |
| `TilePanels.FirstStandardSize` | paper/scripts/python/tile_panels.py:225-230 | no size if and only if no panel is labelled A, B or C; otherwise the size of the first such panel in mapping order |
| `TilePanels.CanonicalSizeChoice` | paper/scripts/python/tile_panels.py:225-230 | the target size is that of the first A, B or C panel, and 1889 × 1200 when there is none |
| `TilePanels.Placements` | paper/scripts/python/tile_panels.py:254-263 | one placement per label; the i-th is at `x = (i mod cols)·(tw + spacing)`, `y = (i div cols)·(th + spacing)` |
| `TilePanels.PlacementInside` | paper/scripts/python/tile_panels.py:247-263 | with spacing ≥ 0 and at most `rows·cols` panels, every placed rectangle lies inside the canvas |
| `TilePanels.PlacementsDisjoint` | paper/scripts/python/tile_panels.py:259-265 | with spacing ≥ 0, no pixel lies in the rectangles of two different placements |
| `TilePanels.CompositePixel` | paper/scripts/python/tile_panels.py:251-265 | after pasting onto white, a pixel inside cell k shows panel k's pixel at the matching offset, and a pixel outside every cell stays white |
| `TilePanels.ChooseFont` | paper/scripts/python/tile_panels.py:154-171 | the font is the first loadable candidate at the requested size, or the built-in bitmap font exactly when no candidate loads |
| `TilePanels.OutlineRowLength` | paper/scripts/python/tile_panels.py:181-189 | one outline column draws once per offset up to its end, the centre excepted |
| `TilePanels.OutlineRowMembers` | paper/scripts/python/tile_panels.py:181-189 | one outline column holds exactly the halo draws of that column below its end |
| `TilePanels.OutlineRowsLength` | paper/scripts/python/tile_panels.py:181-189 | the outline columns up to `dxEnd` make `(dxEnd + w)(2w + 1)` draws, less one once the centre column is passed |
| `TilePanels.OutlineRowsMembers` | paper/scripts/python/tile_panels.py:181-189 | the outline columns up to `dxEnd` hold exactly the halo draws left of `dxEnd` |
| `TilePanels.LabelPlanShape` | paper/scripts/python/tile_panels.py:180-192 | a label plan of outline width w is `(2w+1)²` draws: every non-centre offset in `[−w, w]²` in white, then one black draw at the anchor (120 + 1 draws for w = 5) |
| `TilePanels.Canvas.constructor` | paper/scripts/python/tile_panels.py:251 | a new canvas has the given size, every pixel white, and no draws |
| `TilePanels.Canvas.Paste` | paper/scripts/python/tile_panels.py:265 | pasting overwrites exactly the part of the panel's rectangle inside the canvas with the panel's pixels, and leaves every other pixel as it was |
| `TilePanels.Canvas.DrawTextCall` | paper/scripts/python/tile_panels.py:184-192 | one `draw.text` call appends one draw to the log |
| `TilePanels.Canvas.DrawOutlineRow` | paper/scripts/python/tile_panels.py:182-189 | the inner outline loop appends the white draws of one column in order |
| `TilePanels.Canvas.DrawLabel` | paper/scripts/python/tile_panels.py:180-192 | the nested loops plus the final black draw append exactly the label plan |
| `TilePanels.AddPanelLabel` | paper/scripts/python/tile_panels.py:84-144 | `add_panel_label` appends the plan of outline width 4 anchored at (63, 63), in the first loadable font of its list |
| `TilePanels.AddPanelLabelToComposite` | paper/scripts/python/tile_panels.py:147-192 | `add_panel_label_to_composite` appends the plan of outline width 5 anchored at the panel corner plus (80, 80), font size 200 |
| `TilePanels.SortLabels` | paper/scripts/python/tile_panels.py:254 | `sorted(images.keys())` has the same labels, as many of them, in increasing order |
| `TilePanels.FirstUnreadable` | paper/scripts/python/tile_panels.py:205-212 | none if and only if every panel opens; otherwise the index of the first panel that does not |
| `TilePanels.FirstFalse` | paper/scripts/python/tile_panels.py:205-212 | none if and only if every flag holds; otherwise the index of the first flag that does not |
| `TilePanels.FirstUnresizable` | paper/scripts/python/tile_panels.py:239-243 | none if and only if every panel resizes to the target; otherwise the index of the first panel whose pixels do not decode or whose target size has an empty side |
| `TilePanels.TileOutcomeSaved` | paper/scripts/python/tile_panels.py:197-277 | `tile_images` saves only when there are panels, all of them open and resize, and the save succeeds; with spacing ≥ 0 these conditions are also enough |
| `TilePanels.ReadablePanelsResize` | paper/scripts/python/tile_panels.py:225-243 | panels that all open with no empty side and whose pixels decode all resize, because the target is one of their sizes or 1889 × 1200 |
| `TilePanels.PlaceOne` | paper/scripts/python/tile_panels.py:255-269 | one loop turn pastes panel k at its cell and appends its label plan, extending the canvas state from k to k + 1 placements |
| `TilePanels.PlacePanels` | paper/scripts/python/tile_panels.py:254-269 | the placement loop places `min(n, rows·cols)` panels and leaves the canvas showing exactly those pastes plus their labels |
| `TilePanels.LoadPanels` | paper/scripts/python/tile_panels.py:204-212 | the loading loop reports the first panel that fails to open, and otherwise returns every panel's size in order |
| `TilePanels.ResizeAll` | paper/scripts/python/tile_panels.py:239-243 | the resize loop reports the first panel whose resize raises; otherwise every panel, the reference panel included, keeps its label and gets the target size |
| `TilePanels.Compose` | paper/scripts/python/tile_panels.py:218-277 | after loading, the outcome is the one `tile_images` reaches (resize failure, negative canvas, failed save or saved) and, when saved, the composite has the canvas size, every pixel of the placements and the label plans in order |
| `TilePanels.TileImages` | paper/scripts/python/tile_panels.py:197-277 | `tile_images` fails on no panels, an unloadable or unresizable panel, a negative canvas or a failing save, and otherwise saves the composite described above |
| `TilePanels.RunTiling` | paper/scripts/python/tile_panels.py:280-325 | `main` exits with 1 when nothing is discovered or some discovered panel does not open or decode, only ever exits with 0 or 1, exits with 0 only after a successful save, and exits with 0 whenever spacing ≥ 0, the save succeeds and every discovered panel opens with no empty side and decodes |
| `TilePanels.ExampleNameA` | paper/scripts/python/tile_panels.py:50-57 | `01a_x.jpg` is panel A of figure `01` |
| `TilePanels.ExampleNameB` | paper/scripts/python/tile_panels.py:50-57 | `01B_y.jpg` is panel B of figure `01` |
| `TilePanels.ExampleNameOther` | paper/scripts/python/tile_panels.py:50 | `02a_z.jpg` is not a panel of figure `01` |
| `TilePanels.ExampleJoins` | paper/scripts/python/tile_panels.py:58 | the discovered paths are the directory joined to the file names |
| `TilePanels.ExampleJoinsNormalised` | paper/scripts/python/tile_panels.py:44-58 | `./d` and `d/` as search directory give the same panel path as `d` |
| `TilePanels.ExampleJoinCurrent` | paper/scripts/python/tile_panels.py:44-58 | searching `.` yields the bare file name |
| `TilePanels.FigureIdExample` | paper/scripts/python/tile_panels.py:47 | base `01_demo` has figure id `01` |
| `TilePanels.DiscoveryExample` | paper/scripts/python/tile_panels.py:41-60 | discovery over `01a_x.jpg`, `01B_y.jpg`, `02a_z.jpg` maps A and B to the first two files only |
| `TilePanels.ThreePanelExample` | paper/scripts/python/tile_panels.py:218-263 | three 800 × 600 panels with spacing 20 give a 1 × 3 grid, a 2440 × 600 canvas and corners at x = 0, 820, 1640 |
| `CsvToLatex.ApplyPassesConcat` | paper/scripts/python/csv_to_latex.py:50-51 | single-character replace-all passes distribute over concatenation |
| `CsvToLatex.ApplyPassesAbsent` | paper/scripts/python/csv_to_latex.py:50-51 | passes whose characters do not occur leave the text unchanged |
| `CsvToLatex.ApplyPassesSplit` | paper/scripts/python/csv_to_latex.py:50-51 | running two lists of passes one after the other is running their concatenation |
| `CsvToLatex.PassFinal` | paper/scripts/python/csv_to_latex.py:34-51 | a character whose replacement no later pass touches ends as that replacement |
| `CsvToLatex.BackslashPasses` | paper/scripts/python/csv_to_latex.py:35-42 | the replacement of a backslash has its braces escaped by the later brace passes |
| `CsvToLatex.EscapePunctuation` | paper/scripts/python/csv_to_latex.py:36-40 | `&`, `%`, `$`, `#` and `_` end as a backslash followed by themselves |
| `CsvToLatex.EscapeBrace` | paper/scripts/python/csv_to_latex.py:41-42 | braces end as escaped braces |
| `CsvToLatex.EscapeAccent` | paper/scripts/python/csv_to_latex.py:43-44 | `~` and `^` end as `\textasciitilde{}` and `\textasciicircum{}`, braces intact |
| `CsvToLatex.EscapeBarAngle` | paper/scripts/python/csv_to_latex.py:45-47 | `\|`, `<` and `>` end as their text commands, braces intact |
| `CsvToLatex.EscapeSpecialChar` | paper/scripts/python/csv_to_latex.py:34-51 | each of the thirteen special characters ends as its table entry after all passes |
| `CsvToLatex.EscapePlainChar` | paper/scripts/python/csv_to_latex.py:34-51 | any other character is left as it is |
| `CsvToLatex.ApplyPassesIsEscaped` | paper/scripts/python/csv_to_latex.py:34-51 | the thirteen in-order passes equal the per-character escaping table on every text |
| `CsvToLatex.EscapedPlain` | paper/scripts/python/csv_to_latex.py:34-51 | text free of the special characters is returned unchanged |
| `CsvToLatex.EscapeBackslashExample` | paper/scripts/python/csv_to_latex.py:35-42 | a lone `\` becomes `\textbackslash\{\}` |
| `CsvToLatex.EscapeTildeExample` | paper/scripts/python/csv_to_latex.py:43 | `~` becomes `\textasciitilde{}` |
| `CsvToLatex.EscapeUnderscoreExample` | paper/scripts/python/csv_to_latex.py:40 | `a_b` becomes `a\_b` |
| `CsvToLatex.EscapeLatex` | paper/scripts/python/csv_to_latex.py:25-53 | a missing value gives the empty string, any other text its escaping |
| `CsvToLatex.Head` | paper/scripts/python/csv_to_latex.py:105 | `df.head(n)` is a prefix of the rows |
| `CsvToLatex.SeparatorRow` | paper/scripts/python/csv_to_latex.py:108 | the separator row has one `...` per column |
| `CsvToLatex.TruncateShape` | paper/scripts/python/csv_to_latex.py:101-111 | beyond the limit with `max_rows > 5`: the first `max_rows − 2` rows, the separator, the last two rows, `max_rows + 1` rows in all; beyond it with `0 <= max_rows <= 5`: the first `max_rows` rows; beyond it with a negative `max_rows`: Python's negative-slice count; within it: unchanged |
| `CsvToLatex.DigitRun` | paper/scripts/python/csv_to_latex.py:120 | the leading `\d+` run: all digits, followed by a non-digit or the end |
| `CsvToLatex.MatchNumberedOf` | paper/scripts/python/csv_to_latex.py:120 | `^(\d+)_(.*)$` matches digits, `_` and a one-line remainder, capturing both |
| `CsvToLatex.ParseStemNumbered` | paper/scripts/python/csv_to_latex.py:118-123 | a stem `<digits>_<name>` gives the digits with their leading `0`s stripped, and the name with every `_` turned into a space |
| `CsvToLatex.ParseStemPlain` | paper/scripts/python/csv_to_latex.py:118-123 | a stem not starting with a digit gives no number and the stem as name |
| `CsvToLatex.TabColSep` | paper/scripts/python/csv_to_latex.py:148-156 | the width is one of 2, 3, 4, 6 pt; 2 pt if and only if more than 8 columns; 6 pt if and only if at most 4; 3 pt if and only if 7 or 8 (so 4 pt exactly for 5 or 6) |
| `CsvToLatex.TabColSepMonotone` | paper/scripts/python/csv_to_latex.py:148-156 | more columns never get wider spacing |
| `CsvToLatex.HeaderCells` | paper/scripts/python/csv_to_latex.py:167-173 | one bold, escaped, title-cased header cell per column, in order |
| `CsvToLatex.SeparatorPrefix` | paper/scripts/python/csv_to_latex.py:182-187 | a row is the separator once any of its cells so far reads `...` |
| `CsvToLatex.CellTexts` | paper/scripts/python/csv_to_latex.py:182-197 | one printed value per cell, in order: `--` when missing, else its formatted text escaped |
| `CsvToLatex.RowLinesShape` | paper/scripts/python/csv_to_latex.py:199-209 | the separator prints rule, omitted-count line, rule; any other row prints its joined cells ending in `\\`, preceded by `\rowcolor{gray!10}` exactly when its index is odd |
| `CsvToLatex.LabelLine` | paper/scripts/python/csv_to_latex.py:238-241 | the given label, or `tab:<stem>` when none is given |
| `CsvToLatex.CaptionNoteSpliced` | paper/scripts/python/csv_to_latex.py:217-223 | a given caption of a truncated table keeps its text up to its closing braces and ends with the note and one `}` |
| `CsvToLatex.DefaultCaptionShape` | paper/scripts/python/csv_to_latex.py:224-235 | the default caption is four lines: bold title, line break, truncation note or default text, closing brace |
| `CsvToLatex.RenderCells` | paper/scripts/python/csv_to_latex.py:179-197 | the cells loop detects the separator row and otherwise yields each cell as printed |
| `CsvToLatex.RenderRow` | paper/scripts/python/csv_to_latex.py:178-209 | one row turn appends that row's lines |
| `CsvToLatex.RenderBody` | paper/scripts/python/csv_to_latex.py:178-209 | the rows loop appends the lines of every row in order |
| `CsvToLatex.RenderHeader` | paper/scripts/python/csv_to_latex.py:167-174 | the header loop produces the header line |
| `CsvToLatex.TableLinesFrame` | paper/scripts/python/csv_to_latex.py:136-245 | the document opens with the bookmark, table environment and tabular, has the header on line 8 and the body from line 10, and ends with the label, `\end{table}`, an empty line and `\restoregeometry` |
| `CsvToLatex.CsvToLatexLines` | paper/scripts/python/csv_to_latex.py:96-245 | the lines built are the document of the parsed frame |
| `CsvToLatex.CsvToLatexFile` | paper/scripts/python/csv_to_latex.py:78-254 | a read failure returns False and writes nothing; otherwise success is the write's, and what is written is the lines joined by newlines |
| `Bibtex.StripAll` | paper/scripts/python/explore_bibtex.py:103 | the pieces are each stripped, in order |
| `Bibtex.StripBracesIsStrip` | paper/scripts/python/explore_bibtex.py:132 | the title trimmer is `str.strip("{}")` |
| `Bibtex.ParseEntryShape` | paper/scripts/python/explore_bibtex.py:101-142 | absent fields take their defaults, a year or citation count that `int()` rejects is None, every author and keyword is stripped, and the title neither starts nor ends with a brace |
| `Bibtex.ListFieldStripped` | paper/scripts/python/explore_bibtex.py:101-104 | every piece of a list field is already stripped |
| `Bibtex.TitleTrimmed` | paper/scripts/python/explore_bibtex.py:132 | a trimmed title neither starts nor ends with a brace |
| `Bibtex.ParseEntryNumbers` | paper/scripts/python/explore_bibtex.py:105-117 | a year or citation count written in decimal parses back to itself |
| `Bibtex.ParseEntryAuthors` | paper/scripts/python/explore_bibtex.py:101-103 | plain names joined with ` and ` parse back to the same names |
| `Bibtex.ParseEntryKeywords` | paper/scripts/python/explore_bibtex.py:126-128 | stripped, comma-free keywords joined with `,` parse back to themselves |
| `Bibtex.ParseAll` | paper/scripts/python/explore_bibtex.py:98-145 | one paper per entry, in entry order |
| `Bibtex.FromBibtex` | paper/scripts/python/explore_bibtex.py:93-145 | the loading loop returns exactly one parsed paper per entry, in order |
| `Bibtex.Keep` | paper/scripts/python/explore_bibtex.py:150 | the comprehension keeps exactly the elements passing the test, and never more than the input |
| `Bibtex.KeepSubsequence` | paper/scripts/python/explore_bibtex.py:150 | a comprehension filter keeps an order-preserving subsequence |
| `Bibtex.KeepKeep` | paper/scripts/python/explore_bibtex.py:154-229 | filtering twice is filtering once on the conjunction |
| `Bibtex.PassStage` | paper/scripts/python/explore_bibtex.py:154-229 | each filter pass applied after the earlier ones keeps the papers passing one more stage |
| `Bibtex.FilterIsKeep` | paper/scripts/python/explore_bibtex.py:154-231 | without a callable, the seven passes together are one comprehension over the admitted papers |
| `Bibtex.PassesKeep` | paper/scripts/python/explore_bibtex.py:154-229 | the first k passes keep exactly the papers passing each of them |
| `Bibtex.FilterSubsequence` | paper/scripts/python/explore_bibtex.py:147-231 | every `filter` call returns an order-preserving subsequence of its input |
| `Bibtex.FilterMembers` | paper/scripts/python/explore_bibtex.py:154-231 | without a callable, a paper is kept if and only if it is in the input and the criteria admit it |
| `Bibtex.CallableWins` | paper/scripts/python/explore_bibtex.py:149-151 | a callable condition takes precedence: the keyword criteria then make no difference |
| `Bibtex.BoundsDropZero` | paper/scripts/python/explore_bibtex.py:157-171 | a paper kept by a citation or year bound has that value present and non-zero, even when the bound would admit 0 |
| `Bibtex.KeywordFilter` | paper/scripts/python/explore_bibtex.py:207-215 | the keyword filter keeps a paper if and only if the lowercased keyword is in its non-empty lowercased title, abstract or some keyword |
| `Bibtex.EmptyCriteria` | paper/scripts/python/explore_bibtex.py:157-229 | no criteria (an empty keyword among them) filter nothing out |
| `Bibtex.LexLessIrreflexive` | paper/scripts/python/explore_bibtex.py:246-248 | string order is irreflexive |
| `Bibtex.LexLessTransitive` | paper/scripts/python/explore_bibtex.py:246-248 | string order is transitive |
| `Bibtex.KeyLessStrict` | paper/scripts/python/explore_bibtex.py:239-248 | the order on sort keys, with `-inf` and `inf` for missing values, is a strict order |
| `Bibtex.InsertByKey` | paper/scripts/python/explore_bibtex.py:246-251 | stable insertion adds exactly one element |
| `Bibtex.SortByKey` | paper/scripts/python/explore_bibtex.py:246-251 | `sorted` returns a permutation of its input |
| `Bibtex.InsertSorted` | paper/scripts/python/explore_bibtex.py:246-251 | inserting into a sorted sequence keeps it sorted |
| `Bibtex.SortByKeySorted` | paper/scripts/python/explore_bibtex.py:246-251 | `sorted` returns its input ordered by the key, ascending or with `reverse` |
| `Bibtex.SortByFieldNoneLast` | paper/scripts/python/explore_bibtex.py:233-252 | `sort_by(field)` is a permutation ordered on the field in which papers missing the field come after all others, ascending or descending |
| `Bibtex.CloseIndex` | paper/scripts/python/explore_bibtex.py:287 | the first `}` of the text, or its end |
| `Bibtex.CiteArgsSound` | paper/scripts/python/explore_bibtex.py:287 | every extracted `\cite` argument is non-empty, free of `}`, and occurs in the text as `\cite{arg}` |
| `Bibtex.CiteArgsCons` | paper/scripts/python/explore_bibtex.py:287 | a `\cite{arg}` at the front is extracted and the scan resumes after it |
| `Bibtex.CiteArgsNoBackslash` | paper/scripts/python/explore_bibtex.py:287 | text without a backslash cites nothing |
| `Bibtex.ArgKeysJoin` | paper/scripts/python/explore_bibtex.py:288-289 | stripped, comma-free keys joined with `,` give back the set of keys |
| `Bibtex.UnionMapMembers` | paper/scripts/python/explore_bibtex.py:283-289 | a key is in the accumulated union if and only if it is in the set of some element |
| `Bibtex.FileKeysMembers` | paper/scripts/python/explore_bibtex.py:284-289 | the keys of one file are the keys its text cites, and none when it does not exist |
| `Bibtex.CitedInMembers` | paper/scripts/python/explore_bibtex.py:274-291 | a key is cited if and only if some existing section has a `\cite` argument one of whose comma pieces strips to it |
| `Bibtex.AddUnion` | paper/scripts/python/explore_bibtex.py:283-289 | the update loop adds the union of the elements' sets to the accumulator |
| `Bibtex.GetCitedPapers` | paper/scripts/python/explore_bibtex.py:265-291 | `get_cited_papers` returns the keys cited across the five fixed section files |
| `Bibtex.Cut` | paper/scripts/python/explore_bibtex.py:393-411 | a column is unchanged when it fits, and otherwise its first `width − 2` characters plus `..`, exactly `width` long |
| `Bibtex.ShowOptional` | paper/scripts/python/explore_bibtex.py:394-401 | a count or year shows as `N/A` exactly when it is missing or 0 |
| `Bibtex.RowWidths` | paper/scripts/python/explore_bibtex.py:389-411 | key at most 40, journal at most 25, title at most 50 characters, cut as `[:38]`, `[:23]`, `[:48]` plus `..`; an empty journal or title shows as `N/A` / `No title` |
| `Bibtex.ShownCount` | paper/scripts/python/explore_bibtex.py:383-386 | all papers are shown unless `max_papers` is a non-zero number, which caps them |
| `Bibtex.PapersTable` | paper/scripts/python/explore_bibtex.py:383-420 | the rows loop stops at the cap and prints row i from paper i |
| `Bibtex.CitationValues` | paper/scripts/python/explore_bibtex.py:480 | the truthy citation counts: no more than the papers, none of them 0 |
| `Bibtex.InsertInt` | paper/scripts/python/explore_bibtex.py:486 | inserting into an ascending list keeps it ascending and adds one element |
| `Bibtex.SortInts` | paper/scripts/python/explore_bibtex.py:486 | `sorted(xs)` is an ascending permutation of `xs` |
| `Bibtex.CountBoundPermutation` | paper/scripts/python/explore_bibtex.py:486 | counting the elements below or above a bound depends only on the multiset |
| `Bibtex.UpperMedianSplits` | paper/scripts/python/explore_bibtex.py:486 | `sorted(xs)[len(xs) // 2]` is an element of `xs` with at least `len // 2 + 1` elements at or below it and at least `len − len // 2` at or above it |
| `Bibtex.SeqMin` | paper/scripts/python/explore_bibtex.py:483 | `min` is an element bounding all others from below |
| `Bibtex.SeqMax` | paper/scripts/python/explore_bibtex.py:484 | `max` is an element bounding all others from above |
| `Bibtex.CitationStatsOrdered` | paper/scripts/python/explore_bibtex.py:480-486 | the printed min, median and max satisfy `min <= median <= max`, and each is a paper's citation count |
| `Bibtex.WithCitationsAgree` | paper/scripts/python/explore_bibtex.py:438-442 | for non-negative counts, the papers with citations counted by the filter are as many as the counts collected for the statistics |
| `CropTif.FindContentArea` | paper/scripts/python/crop_tif.py:17-57 | an unreadable image raises; otherwise the content box, or the whole image `(0, 0, W, H)` when nothing is drawn |
| `CropTif.FallbackInside` | paper/scripts/python/crop_tif.py:54-57 | the fallback box is the whole image and lies inside it |
| `CropTif.CropWindowBounds` | paper/scripts/python/crop_tif.py:156-159 | with margin ≥ 0 and the box inside the image, the window is `[max(x−m,0), min(x+w+m,W)) × [max(y−m,0), min(y+h+m,H))`, lies inside the image and contains the box |
| `CropTif.SliceLength` | paper/scripts/python/crop_tif.py:166 | a Python slice of an axis is never negative nor longer than the axis |
| `CropTif.CroppedDimsExact` | paper/scripts/python/crop_tif.py:156-166 | the cropped image is exactly `(x_end − x_start) × (y_end − y_start)` |
| `CropTif.ResizeImage` | paper/scripts/python/crop_tif.py:60-101 | an image within the limits is returned unchanged; an over-large one with a zero side raises ZeroDivisionError; an over-large one whose scaled size has an empty side makes `cv2.resize` raise; any other over-large image gets a non-empty size |
| `CropTif.ResizeFits` | paper/scripts/python/crop_tif.py:83-89 | an over-large image scaled by `min(max_width/width, max_height/height)` fits both limits, grows in neither direction, and meets one limit exactly |
| `CropTif.ResizeNonEmptyIff` | paper/scripts/python/crop_tif.py:83-98 | with positive limits, resizing an over-large image succeeds if and only if `height·max_width >= width` and `width·max_height >= height`, that is, neither scaled side truncates to 0 |
| `CropTif.ScaledByWidth` | paper/scripts/python/crop_tif.py:85-89 | when the width ratio is the smaller, the new width is `max_width` and the new height `int(height·max_width/width)` |
| `CropTif.ScaledByHeight` | paper/scripts/python/crop_tif.py:85-89 | when the height ratio is the smaller, the new height is `max_height` and the new width `int(width·max_height/height)` |
| `CropTif.ResizeExamples` | paper/scripts/python/crop_tif.py:83-98 | a 10000 × 1 strip at 2000 × 2000 limits makes `cv2.resize` raise; a 4000 × 1000 image becomes 2000 × 500 |
| `CropTif.ScaledSide` | paper/scripts/python/crop_tif.py:85-89 | a side scaled by at most `limit/len` and at most 1 fits both its limit and its length |
| `CropTif.ResizeUnchangedIff` | paper/scripts/python/crop_tif.py:83-101 | the size comes back unchanged if and only if it is within the limits |
| `CropTif.ScaledBelow` | paper/scripts/python/crop_tif.py:85-89 | scaling a side down onto a smaller limit makes it strictly shorter |
| `CropTif.ResolveOutput` | paper/scripts/python/crop_tif.py:133-137 | the given output path, or the input path when overwriting; otherwise ValueError |
| `CropTif.CropTifNeedsOutput` | paper/scripts/python/crop_tif.py:133-142 | `crop_tif` raises the missing-output ValueError exactly when there is no output and no overwrite, writes only to the resolved path, and writes nothing for an unreadable image |
| `CropTif.CropTifWrites` | paper/scripts/python/crop_tif.py:132-185 | a readable, non-empty image is written to the resolved path exactly when the resize (if asked for) succeeds, and otherwise `cv2.resize` raised; what is written is non-empty, is the clamped window without resizing, and fits the limits with resizing |
| `CropTif.CroppedNonEmpty` | paper/scripts/python/crop_tif.py:150-166 | the crop of a readable image around a box inside it is the whole window and not empty |
| `CropTif.TifNameExamples` | paper/scripts/python/crop_tif.py:225-229 | the `.tif` / `.tiff` test ignores case and rejects other names |
| `CropTif.BatchItemOutput` | paper/scripts/python/crop_tif.py:240-264 | a batch never raises the missing-output ValueError, and writes each file only to its own batch output |
| `CropTif.BatchCropTifs` | paper/scripts/python/crop_tif.py:188-266 | `batch_crop_tifs` raises ValueError exactly when the directory does not exist, and otherwise makes one `crop_tif` call per selected TIF file, in order, each with its batch output |
| `CropTif.BatchSelectsTifs` | paper/scripts/python/crop_tif.py:227-229 | a non-recursive batch processes exactly the TIF names of the listing joined to the directory, and each such file's base name is a TIF name |
| `OptimizeFigure.EvenFloor` | paper/scripts/python/optimize_figure.py:126-127 | `(n // 2) * 2` is even and is n or n − 1 |
| `OptimizeFigure.ComputeOptimalSize` | paper/scripts/python/optimize_figure.py:82-129 | both returned dimensions are even, and a zero height raises ZeroDivisionError |
| `OptimizeFigure.OptimalSizeDefined` | paper/scripts/python/optimize_figure.py:96-120 | positive sizes and maxima never divide by zero |
| `OptimizeFigure.OptimalSizeFits` | paper/scripts/python/optimize_figure.py:100-109 | an over-large image is shrunk: the limiting side becomes its maximum (rounded down to even), the other follows the aspect ratio, and the result fits the maxima without growing |
| `OptimizeFigure.WidthLimitedSide` | paper/scripts/python/optimize_figure.py:102-105 | when the width limits, `int(max_width / aspect)` lies within both `max_height` and the height |
| `OptimizeFigure.HeightLimitedSide` | paper/scripts/python/optimize_figure.py:107-109 | when the height limits, `int(max_height · aspect)` lies within both `max_width` and the width |
| `OptimizeFigure.UpscaleAtMostDoubles` | paper/scripts/python/optimize_figure.py:114-120 | a narrow image within the maxima gets each side scaled by `min(8·dpi/width, 2)`, truncated and rounded down to even; each side thus at least keeps its length (up to even rounding) and at most doubles |
| `OptimizeFigure.OptimalSizeKept` | paper/scripts/python/optimize_figure.py:121-127 | a wide-enough image within the maxima keeps its size apart from even rounding |
| `OptimizeFigure.UpscaleIgnoresMaxima` | paper/scripts/python/optimize_figure.py:110-120 | the upscale ignores the maxima: 1500 × 1000 with 2000-pixel maxima at 300 DPI becomes 2400 × 1600 |
| `OptimizeFigure.CropWhitespace` | paper/scripts/python/optimize_figure.py:71-80 | without a bounding box the image is returned as it is |
| `OptimizeFigure.CropWhitespaceBounds` | paper/scripts/python/optimize_figure.py:72-79 | the padded box is clamped to `[0, width] × [0, height]` and keeps the content, so the crop lies between the content and the image in size |
| `OptimizeFigure.DefaultOutputKeepsFormat` | paper/scripts/python/optimize_figure.py:177-229 | the default output is root + `_optimized` + extension; it keeps the input's save options and never equals the input |
| `OptimizeFigure.SaveOptionsUpperCase` | paper/scripts/python/optimize_figure.py:222-225 | `.JPG` is saved with quality, optimize and progressive |
| `OptimizeFigure.SaveOptionsPng` | paper/scripts/python/optimize_figure.py:226-227 | `.png` is saved with optimize only |
| `OptimizeFigure.SaveOptionsJpeg` | paper/scripts/python/optimize_figure.py:224-225 | `.jpeg` is saved like `.jpg`, with quality, optimize and progressive |
| `OptimizeFigure.SaveOptionsOther` | paper/scripts/python/optimize_figure.py:220-229 | an extension outside the table, such as `.svg`, is saved with no options |
| `OptimizeFigure.SaveOptionsLastComponent` | paper/scripts/python/optimize_figure.py:222-229 | the last path component's extension decides: `plots.v2/fig.Tiff` is saved with LZW compression |
| `OptimizeFigure.OptimizeFigureOutcome` | paper/scripts/python/optimize_figure.py:155-250 | a successful run saves to the chosen output with its extension's options at the computed even size, and resizes exactly when that size differs from the current one |
| `OptimizeFigure.OptimizeFigureSucceeds` | paper/scripts/python/optimize_figure.py:184-246 | a loadable image of positive size with positive maxima that saves, with a non-empty input file, is reported as optimised if and only if the computed size has no empty side |
| `OptimizeFigure.OptimizeThinStripFails` | paper/scripts/python/optimize_figure.py:200-209 | a 4000 × 1 image at 2000 × 2000 maxima is computed as 2000 × 0, so `Image.resize` raises and the run returns `None` |
| `GenerateAi2Prompt.DropLinesMembers` | paper/scripts/python/generate_ai2_prompt.py:88 | a line survives the comprehension if and only if it was a line and is not dropped |
| `GenerateAi2Prompt.DropLinesAppend` | paper/scripts/python/generate_ai2_prompt.py:88 | the filter commutes with concatenation, so kept lines stay in their original order |
| `GenerateAi2Prompt.DropLinesNone` | paper/scripts/python/generate_ai2_prompt.py:88 | lines none of which is dropped all survive |
| `GenerateAi2Prompt.ReadTexStripped` | paper/scripts/python/generate_ai2_prompt.py:81-90 | a missing file reads as ""; any content read neither starts nor ends with whitespace |
| `GenerateAi2Prompt.ReadTexWithoutComments` | paper/scripts/python/generate_ai2_prompt.py:87-90 | a file without comment lines reads as its whole content, stripped |
| `GenerateAi2Prompt.ReadTexLines` | paper/scripts/python/generate_ai2_prompt.py:87-88 | a kept line is a line of the file and is never a comment line, and every non-comment line is kept |
| `GenerateAi2Prompt.ReadTexDropsLeadingComment` | paper/scripts/python/generate_ai2_prompt.py:87-90 | a leading comment line makes no difference to what is read |
| `GenerateAi2Prompt.TextLine` | paper/scripts/python/generate_ai2_prompt.py:88 | a line starting with neither a blank nor `%` is kept |
| `GenerateAi2Prompt.PercentLine` | paper/scripts/python/generate_ai2_prompt.py:88 | a line starting with `%` is a comment line |
| `GenerateAi2Prompt.LeadingBlank` | paper/scripts/python/generate_ai2_prompt.py:88 | a leading blank does not change whether a line is a comment line |
| `GenerateAi2Prompt.IndentedComment` | paper/scripts/python/generate_ai2_prompt.py:88 | a `%` after any run of blanks still makes a comment line |
| `GenerateAi2Prompt.TextLineExamples` | paper/scripts/python/generate_ai2_prompt.py:88 | `\section{Intro}` and `50% of cases` are kept: an inline `%` does not count |
| `GenerateAi2Prompt.IndentedCommentExample` | paper/scripts/python/generate_ai2_prompt.py:88 | `  % draft` is a comment line |
| `GenerateAi2Prompt.ReadTexExample` | paper/scripts/python/generate_ai2_prompt.py:87-88 | of three lines, the indented comment goes and the others stay in order |
| `GenerateAi2Prompt.RequestsDiffer` | paper/scripts/python/generate_ai2_prompt.py:114-124 | the two requests share their opening words and then part |
| `GenerateAi2Prompt.PromptTemplate` | paper/scripts/python/generate_ai2_prompt.py:113-134 | the prompt opens with the co-author request if and only if the search type is `coauthors`, and with the related request otherwise |
| `GenerateAi2Prompt.FieldsEndWithAbstract` | paper/scripts/python/generate_ai2_prompt.py:116-122 | after any request the fields end with the abstract after its label |
| `GenerateAi2Prompt.PromptEndsWithAbstract` | paper/scripts/python/generate_ai2_prompt.py:113-134 | every prompt ends with `Abstract: ` and the abstract verbatim |
| `GenerateAi2Prompt.FieldsDetermineSummary` | paper/scripts/python/generate_ai2_prompt.py:116-122 | after the same request and other fields, equal texts have equal abstracts |
| `GenerateAi2Prompt.PromptInjective` | paper/scripts/python/generate_ai2_prompt.py:113-134 | for fixed title, keywords and authors, the prompt determines the abstract and whether the co-author template was used |
| `Pptx2Tif.SlideOutputs` | paper/scripts/python/pptx2tif.py:137-154 | the naming loop appends one path per image, in order |
| `Pptx2Tif.SingleSlideName` | paper/scripts/python/pptx2tif.py:141-142 | a single output is `<base>.tif` in the output directory |
| `Pptx2Tif.SlideNumber` | paper/scripts/python/pptx2tif.py:141-144 | with several outputs each name is `<base>_slide_` + number + `.tif`, the number reading back as the position counted from 1 |
| `Pptx2Tif.SlideNamesDistinct` | paper/scripts/python/pptx2tif.py:138-144 | no two images of one conversion get the same name |
| `Pptx2Tif.SlideNameHasNoSlash` | paper/scripts/python/pptx2tif.py:141-144 | a name has no `/` when the base has none |
| `Pptx2Tif.SlidePathsDistinct` | paper/scripts/python/pptx2tif.py:141-146 | the output paths of one conversion are pairwise distinct |
| `Pptx2Tif.BaseNameHasNoSlash` | paper/scripts/python/pptx2tif.py:93 | the base name of a presentation holds no `/` |
| `Pptx2Tif.LibreOfficeConversion` | paper/scripts/python/pptx2tif.py:62-164 | it fails exactly when the file is missing (FileNotFoundError), LibreOffice exits non-zero, or no TIF is generated (both RuntimeError); otherwise one output per generated TIF |
| `Pptx2Tif.ConvertLibreOffice` | paper/scripts/python/pptx2tif.py:80-159 | the LibreOffice converter's loop produces that outcome |
| `Pptx2Tif.PythonConversion` | paper/scripts/python/pptx2tif.py:167-240 | it fails exactly when python-pptx or Pillow is missing (ImportError) or the file is missing (FileNotFoundError); otherwise one output per slide |
| `Pptx2Tif.ConvertPython` | paper/scripts/python/pptx2tif.py:187-240 | the python-pptx converter's loop produces that outcome |
| `Pptx2Tif.PythonOnePathPerSlide` | paper/scripts/python/pptx2tif.py:213-240 | the python-pptx path returns exactly one path per slide, in slide order, pairwise distinct |
| `Pptx2Tif.LibreOfficeOutputsDistinct` | paper/scripts/python/pptx2tif.py:137-159 | the LibreOffice outputs are pairwise distinct |
| `Pptx2Tif.ChooseMethod` | paper/scripts/python/pptx2tif.py:275-302 | `auto` picks LibreOffice when installed, else python-pptx when it and Pillow are available, else RuntimeError; explicit names pick their converter; any other name is a ValueError |
| `Pptx2Tif.InPlaceCropWritesBack` | paper/scripts/python/pptx2tif.py:318 | the in-place crop never lacks an output and writes back to its own file |
| `Pptx2Tif.Convert` | paper/scripts/python/pptx2tif.py:243-327 | `convert_pptx_to_tif` dispatches, converts, and crops every output when asked |
| `Pptx2Tif.CropOutputs` | paper/scripts/python/pptx2tif.py:313-320 | the cropping loop crops each output in place, in order |
| `Pptx2Tif.ConversionDispatch` | paper/scripts/python/pptx2tif.py:275-302 | an unknown method is a ValueError; `auto` with nothing installed is a RuntimeError; otherwise the outcome is the chosen converter's |
| `Pptx2Tif.CropPolicy` | paper/scripts/python/pptx2tif.py:305-325 | cropping happens exactly when asked for, with outputs and with the crop module importable; then each output is cropped once, in place, in order |
| `Pptx2Tif.PowerPointNameExamples` | paper/scripts/python/pptx2tif.py:371-377 | the `.ppt` / `.pptx` test ignores case and rejects `.pptm` and `.pdf` |
| `Pptx2Tif.FlattenAppend` | paper/scripts/python/pptx2tif.py:412 | extending in turn commutes with concatenation |
| `Pptx2Tif.BatchOutputsAppend` | paper/scripts/python/pptx2tif.py:385-416 | the batch outputs of two runs of files are those of the first followed by those of the second |
| `Pptx2Tif.BatchSkipsFailures` | paper/scripts/python/pptx2tif.py:401-414 | a file whose conversion raises adds nothing, and any other adds its outputs at the end |
| `Pptx2Tif.ConvertForBatch` | paper/scripts/python/pptx2tif.py:390-414 | one batch turn adds the file's outputs, converted into its own output directory, or nothing when it raised |
| `Pptx2Tif.BatchConvert` | paper/scripts/python/pptx2tif.py:330-416 | a missing directory is a ValueError; otherwise the outputs of every PowerPoint file of the directory or tree, file after file, skipping failures; no files give `[]` |
| `Pptx2Tif.ConvertAll` | paper/scripts/python/pptx2tif.py:385-416 | the batch loop collects the outputs of every file in turn |
| `Pptx2Tif.BatchSelectsPowerPoint` | paper/scripts/python/pptx2tif.py:374-378 | a non-recursive batch looks at exactly the PowerPoint names of the listing, joined to the directory |
| `Paths.SelectNamesMembers` | paper/scripts/python/crop_tif.py:228-229 | a listing comprehension selects exactly the wanted names, joined to the directory |
| `Paths.WalkSelectMembers` | paper/scripts/python/crop_tif.py:223-226 | a walk selects exactly the wanted names of every visited directory, joined to that directory |
| `Paths.CollectMatching` | paper/scripts/python/crop_tif.py:221-229 | the file-list loops build the walk selection when recursive and the listing selection otherwise |
| `Paths.KeepParts` | paper/scripts/python/tile_panels.py:44 | the components `pathlib` keeps are non-empty, never `.`, and all come from the split path |
| `Paths.PathRoot` | paper/scripts/python/tile_panels.py:44 | the root is empty, `/` or `//`, and is non-empty exactly when the path starts with `/` |
| `Paths.BasenamePathChild` | paper/scripts/python/tile_panels.py:50-58 | the base name of `str(Path(dir) / name)` is `name` |
| `Paths.PathChildPlain` | paper/scripts/python/tile_panels.py:44-58 | a plain relative directory gives `dir/name`, the same as `os.path.join` |
| `Paths.PathChildOfCurrent` | paper/scripts/python/tile_panels.py:44-58 | `Path("")` and `Path(".")` give the bare name |
| `Paths.PathChildTrailingSlash` | paper/scripts/python/tile_panels.py:44-58 | a trailing slash of the directory is dropped |
| `Paths.PathChildDotPrefix` | paper/scripts/python/tile_panels.py:44-58 | a leading `./` of the directory is dropped |
| `Paths.PathChildOfRoot` | paper/scripts/python/tile_panels.py:44-58 | the root directory gives `/name` |
| `Paths.SplitExtRoundTrip` | paper/scripts/python/optimize_figure.py:178 | `splitext` gives a root and an extension that concatenate back to the path; the extension is empty or one dot-suffix |
| `Paths.SplitExtInsert` | paper/scripts/python/optimize_figure.py:178-179 | inserting dot- and slash-free text between root and extension keeps the split |
| `Strings.JoinSplit` | paper/scripts/python/generate_ai2_prompt.py:87-90 | joining the pieces of a split with the same separator gives back the text |
| `Strings.ParseShowInt` | paper/scripts/python/explore_bibtex.py:108-115 | `int(str(i)) == i` for every integer |
| `Strings.ShowNatInjective` | paper/scripts/python/pptx2tif.py:144 | different numbers render differently |

## Left out

- Pixel work done by libraries is not modelled: decoding, LANCZOS / INTER_AREA resampling, adaptive thresholding, `ImageChops` differencing, `enhance_image_quality`, JPEG/TIFF encoding and DPI metadata. It becomes decoded sizes, given content boxes, a per-file flag for whether pixel data decodes (`tile_panels.py`), and save flags.
- Library exceptions are modelled by size only: `cv2.resize` and `Image.resize` raise for a target size with an empty side, and `cv2.imwrite` for an empty image. Other library failures (memory, codecs, permissions) appear only as the save flags and the pixel-decoding flag.
- `TilePanels.IsPanelName`, `TilePanels.PanelMap`, `TilePanels.PanelMapDomain` and `TilePanels.DetectPanels` match the figure id literally. `tile_panels.py:50` pastes the id into a glob pattern, so `*`, `?` and `[...]` in the id act as wildcards and a `/` searches a subdirectory; ids containing them are not modelled. With such an id the source can find files the model does not (id `1?` matches `12a_f.jpg`) and can even produce a non-letter key (id `0*` with `0123a_x.jpg` gives key `2`).
- Glyphs are not modelled. Labels are a log of draw calls, and font loading is a `loadable` predicate over the candidate paths.
- File-system calls are not modelled: `glob`, `listdir`, `walk`, `exists`, `isdir`, `open`, `makedirs`, `tempfile`, file copies and sizes. Listings, walks, file contents and flags are parameters, and `makedirs` is left out.
- `subprocess`/LibreOffice and `which libreoffice` become an exit code, a generated-file list and an installed flag. A failing copy of a generated TIF is not modelled.
- `os.path.abspath` and `os.path.relpath` are opaque functions passed in.
- `python-pptx` failing to open a presentation is not modelled: its slide count is given.
- Floating point is not modelled: `compute_optimal_size` and `resize_image` use exact rationals and double rounding is abstracted away.
- `format_number` of `csv_to_latex.py` is a parameter `format`.
- pandas' `read_csv`, `to_numeric` (column alignment) and `isna` on non-missing values become a given frame and a `numeric` predicate.
- The impact-factor filters, `calculate_score` and the score sort of `explore_bibtex.py` work on floats and are not modelled. `sort_by` is modelled on the integer fields and the title.
- The percentages and means printed by `print_summary_stats` are not modelled; its counts, min, max and median are.
- `extract_coauthors_from_tex` and the co-author filter of `explore_bibtex.py` are not modelled. They need the regular-expression substitution of arbitrary LaTeX commands.
- bibtexparser loading and dumping are not modelled. Entries arrive as field maps, and `save` is left out.
- Python's `int()` is modelled as optional blanks, an optional sign and ASCII digits. Underscores and Unicode digits are left out. The same holds for the `\d` of the `^(\d+)_(.*)$` match in `csv_to_latex` (`csv_to_latex.py:120`): `CsvToLatex.DigitRun` and `CsvToLatex.MatchNumberedOf` take only ASCII digits, so a stem such as `٣_x` (Arabic-Indic three) is read as a plain name, where Python reads table number `٣`.
- `.lower()`, `.upper()`, `.title()` and `.strip()` are modelled over ASCII. Unicode case and whitespace rules are left out.
- `resolution`, `target_dpi` of `crop_tif` and `verbose` have no effect on what the scripts compute. They are left out.
- The `main` functions of `csv_to_latex.py`, `explore_bibtex.py`, `crop_tif.py`, `optimize_figure.py`, `generate_ai2_prompt.py` and `pptx2tif.py`, argparse, and all printing and logging are left out. The `main` of `tile_panels.py` is modelled by `TilePanels.RunTiling`, with the parsed arguments as parameters.
- `crop_tif` is called from `pptx2tif.py` as `crop_tif(tif, tif, margin, True, verbose)`. Positionally this passes `True` as `resize` and `verbose` as `target_dpi`; `overwrite` keeps its default. The model follows that call: the crop is in place, resized to the 2000 × 2000 defaults.
- `Bibtex.SortByFieldNoneLast`: the journal impact factor is not a sortable field here, because it is a float.
- `Pptx2Tif.PythonConversion`: the python-pptx converter writes no files, so only its returned list is modelled, as in the source.
