# gophers image tools, modelled in Dafny

The gophers repository holds a set of small one-shot command-line tools that
prepare its gopher artwork. Most of each tool is file and codec plumbing. This
project models the logic between the plumbing and proves what that logic
promises.

- **fix-svg-style.go** flattens SVG gradients. `ProcessSVG` walks the element
  tree and indexes ids as it goes. It deletes `visibility:visible` from
  `style` attributes and rewrites `fill:url(#id)` / `stroke:url(#id)` into the
  colour the gradient resolves to. The resolver follows `href` chains and
  caches its single-stop answers. Afterwards the tool prunes `linearGradient`
  definitions that no longer resolve to themselves. The tree is an arena of
  nodes (`SvgTree`). The four regular expressions of fix-svg-style.go:74-77 are
  explicit scanners (`SvgPatterns`); the fill and stroke patterns differ
  only in their prefix and share one scanner. The resolver, the walk and the sweep are pure
  specifications (`SvgResolve`, `SvgProcess`, `SvgWalk`, `SvgPrune`). Class
  `SvgFix.SvgFixer` holds the state the Go closures share: the arena,
  `getElementByID`, `resolveColorCache` and `changed`. Each of its methods is
  proved to compute what the specifications describe. The Go program's
  panics and its endless loop on a cyclic `href` chain are explicit errors
  (`SvgError`).
- **update.go** lays out collages and thumbnail sheets.
  - `Update.Collage` is the collage of `NewCollage`, with its `Draw` cursor.
  - `FitBoundsIntoFrame` and the `Downscale` size are integer geometry.
  - `FileInfos.Less` is an order on names, with `sort.Sort` as a sort.
  - `MakeThumbs` gives each directory entry its link.
  - `CreateThumbsIndex` is the markdown serialiser.
- **twitterify.go** pads a GIF or PNG to a minimum canvas. The model covers
  the canvas size, the centring offset and the background fill. It also
  covers the frame, delay and disposal sequences of duplicate mode and of
  repeat mode.
- **normalize-alpha.go** overwrites every fully transparent pixel of an
  NRGBA buffer, in place, with one background value.
- **collage.go** builds a random collage. The model covers the walk, with
  its `SkipDir` for `.git`, the size filter, the permutation and the grid
  placement of each image. The `.git` test does not ask for a directory, so
  a `.git` file in a walk of "." skips everything after it.
- **thumbs.go** writes a thumbnail per image. The model covers the walk,
  with its `SkipDir` for hidden directories and the error that a failed
  open ends it with, the thumbnail size and the output names.
- **split-sheet.go** cuts one PNG per frame tag out of a sprite sheet. The
  model maps the atlas to the list of output jobs.

Shared modules:

- `Base` holds Go's truncating integer division (`GoDiv`), ceiling division
  and `Option`/`Result`.
- `Geometry` holds `image.Point` and `image.Rectangle`, and the
  longer-side-to-cell scaling that collage.go and thumbs.go share.
- `FilePath` holds `filepath.Ext`, `filepath.Join`, `strings.Contains` and
  update.go's `ReplaceExt`.
- `FileWalk` holds `filepath.Walk` as the Go documentation describes it.
  Walk reaches the entries of the tree in lexical pre-order and passes each
  to the walk function, unless an earlier answer cut it off. An error
  answer ends the walk. A `SkipDir` answer for a directory skips everything
  below it; for a file, it skips the rest of the directory holding the
  file.

Inputs the tools read from outside become parameters:

- a decoded image is its size, or its pixel buffer;
- a directory tree is the list of entries `filepath.Walk` reaches, in its
  order (`FileWalk.Visit`); which of them reach the walk function is
  computed;
- opening and decoding a path is a function `load`;
- `rand.Perm` is a permutation given as an argument;
- flags are parameters, and their defaults are constants.

## Model

| member | source | states |
|---|---|---|
| SvgTree.FirstAttrFromSpec | fix-svg-style.go:173-189 | the attribute scan returns the first attribute with the key; it returns nothing exactly when no attribute has that key |
| SvgTree.AttrValueSpec | fix-svg-style.go:173-180 | `GetAttributeValue` gives the value of the first attribute with the key; "" means there is none or its value is empty |
| SvgTree.GetAttributeValue | fix-svg-style.go:173-180 | the loop over `node.Attr` returns that first value, or "" |
| SvgTree.GetAttribute | fix-svg-style.go:182-189 | the loop returns the position of the first attribute with the key (Go's pointer), or none |
| SvgTree.ElementsByTagMembers | fix-svg-style.go:199-207 | a handle is collected iff it is a child that is an element with that tag |
| SvgTree.ElementsByTagAppend | fix-svg-style.go:199-207 | sibling order is kept: the elements found among a + b are those found among a, followed by those found among b |
| SvgTree.GetElementsByTagName | fix-svg-style.go:191-209 | the loop over the sibling list collects exactly ElementsByTag |
| SvgTree.StylesOnlyNode | fix-svg-style.go:122-141 | arenas that differ only in style values agree on every kind, tag, child list, attribute key and non-style value |
| SvgTree.StylesOnlySet | fix-svg-style.go:122-123 | storing into a style attribute changes only style values |
| SvgTree.StylesOnlyValid | fix-svg-style.go:118-120 | the tree shape does not depend on style values |
| SvgPatterns.RemoveVisibilityNoMatch | fix-svg-style.go:74 | a style with no `visibility:visible` followed by `;` or a literal `$` is left exactly as it was |
| SvgPatterns.RemoveVisibilityFirst | fix-svg-style.go:123 | the leftmost `visibility:visible` followed by `;` or `$` is deleted with that character: the text before it is kept and the deletion resumes right after it |
| SvgPatterns.RemoveVisibilityShortens | fix-svg-style.go:123 | a style holding a match anywhere loses at least the match and its terminator |
| SvgPatterns.RemoveVisibilityDeletes | fix-svg-style.go:123 | the deletion only removes characters: what it keeps is a subsequence of the input, in order |
| SvgPatterns.IdRunEndChars | fix-svg-style.go:75-76 | the id run consists only of `[a-zA-Z0-9-]` characters |
| SvgPatterns.UrlRefAtSound | fix-svg-style.go:75-76 | a reference the scanner finds is a match of the pattern, and its id is the text between `#` and `)` |
| SvgPatterns.UrlRefAtComplete | fix-svg-style.go:75-76 | every match of the pattern at a position is the one the scanner finds there |
| SvgPatterns.UrlRefsDisjoint | fix-svg-style.go:75-76 | matches never overlap, so the left-to-right scan meets every match |
| SvgPatterns.SemicolonFromClear | fix-svg-style.go:77 | no `;` comes before the one found |
| SvgPatterns.LastDollarSpec | fix-svg-style.go:77 | finds the last literal `$` in a range; none means there is none |
| SvgPatterns.StopColorAtSpec | fix-svg-style.go:77 | at one position the capture is the longest capture of a match; none exactly when nothing matches there |
| SvgPatterns.StopColorFromNone | fix-svg-style.go:77 | when the search finds nothing, no match starts at or after the position |
| SvgPatterns.StopColorFromFirst | fix-svg-style.go:77 | a found capture belongs to the leftmost match and is its longest capture |
| SvgPatterns.StopColorSpec | fix-svg-style.go:77-104 | `FindStringSubmatch(style)[1]` is the longest capture of the leftmost match; None when nothing matches anywhere; the capture holds no `;` |
| SvgResolve.FollowChainStops | fix-svg-style.go:85-92 | a chain FollowChain ends at t is one the Go loop leaves at t |
| SvgResolve.FollowChainDangles | fix-svg-style.go:85-92 | UnknownId(x) means the loop reaches an href to the unindexed x and then dereferences nil |
| SvgResolve.FollowChainCycles | fix-svg-style.go:85-92 | CyclicHref means the Go loop never stops |
| SvgResolve.LoopOutcomesExclusive | fix-svg-style.go:85-92 | the loop ends in at most one of the three ways |
| SvgResolve.ChainMatchesLoop | fix-svg-style.go:85-92 | FollowChain agrees with the Go loop in every case, both directions of each outcome |
| SvgResolve.FollowChainErrors | fix-svg-style.go:85-92 | FollowChain fails only with an unknown id or a cycle, reported for the requested id |
| SvgResolve.ResolveByTerminal | fix-svg-style.go:94-107 | no stop children give `rgba(0,0,0,0)`; two or more give `url(#id)`; one stop gives its `stop-color` capture, or fails when its style has none |
| SvgResolve.ResolveCached | fix-svg-style.go:80-108 | a cached id is answered from the cache; otherwise the id is resolved afresh and only a single-stop colour is stored, under the requested id |
| SvgResolve.ResolveCachedSpec | fix-svg-style.go:79-106 | the cache only grows and keeps its entries; nothing else changes; a stored colour is the answer and holds no `;` |
| SvgResolve.PaintTextSelf | fix-svg-style.go:94-106 | the answer is the reference `url(#id)` itself iff the gradient has several stops or its one stop's captured colour is that text; `rgba(0,0,0,0)` never is |
| SvgProcess.ResolveStable | fix-svg-style.go:80-83 | within one arena the cache changes no answer: a later resolveColor(id) answers as the first one did |
| SvgProcess.FreshAnswer | fix-svg-style.go:102-107 | an id whose fresh resolution is a flat colour answers that colour |
| SvgProcess.RewriteRefsFrom | fix-svg-style.go:124-140 | the rewrite of a style from a position leaves the arena and the index alone and never clears `changed` |
| SvgProcess.RewriteRefsFaithful | fix-svg-style.go:124-140 | every cache entry the rewrite adds is confirmed by a fresh resolution |
| SvgProcess.RewriteRefsExtends | fix-svg-style.go:124-140 | the rewrite never drops or changes a cache entry |
| SvgProcess.RewriteRefsNoMatch | fix-svg-style.go:124-140 | text without a reference is copied and resolves nothing |
| SvgProcess.RewriteRefsQuiet | fix-svg-style.go:124-140 | when `changed` stays false, the rewritten text is the original |
| SvgProcess.RewriteRefsCopies | fix-svg-style.go:124-140 | the text before the leftmost reference is copied unchanged |
| SvgProcess.RewriteRefsReplaces | fix-svg-style.go:124-140 | a reference at j is replaced by the prefix plus resolveColor(id); `changed` is set iff that differs; the scan resumes after the match |
| SvgProcess.RewriteRefsChanged | fix-svg-style.go:124-140 | `changed` ends true iff it was true or some replacement differs from its match |
| SvgProcess.RewriteRefsChangedFrom | fix-svg-style.go:124-140 | the same after earlier resolveColor calls in the pass |
| SvgProcess.MatchStep | fix-svg-style.go:124-131 | one replacement keeps the cache faithful and sets `changed` iff it was set or this replacement differs |
| SvgWalk.RewriteStyle | fix-svg-style.go:122-141 | the style rewrite changes only style values; it keeps the index; it never clears `changed` or drops a cache entry |
| SvgWalk.RewriteStyleFrame | fix-svg-style.go:122-141 | the rewrite of one node's style leaves every other node as it was |
| SvgWalk.RewriteStyleVisibilityOnly | fix-svg-style.go:123 | the `visibility:visible` deletion alone never sets `changed`; a style without references is stored with the deletion done |
| SvgWalk.RewriteStyleChanged | fix-svg-style.go:123-140 | `changed` is set iff it was set or some fill or stroke replacement differs from its match, each read on the arena as it stands then |
| SvgWalk.ProcessNode | fix-svg-style.go:110-142 | `process` keeps the arena valid, changes only style values, and only adds to the cache |
| SvgWalk.ProcessChildren | fix-svg-style.go:118-120 | the loop over the children keeps the same |
| SvgWalk.ProcessRoots | fix-svg-style.go:144-146 | the loop over the roots keeps the same |
| SvgWalk.IndexAllStyles | fix-svg-style.go:112-115 | the id index does not see style rewrites |
| SvgWalk.ProcessNodeIndexes | fix-svg-style.go:112-120 | after `process(h)` the index is the old one updated with the ids of h's subtree in pre-order; a later duplicate id wins |
| SvgWalk.ProcessNodeRewritesLast | fix-svg-style.go:110-141 | a node's style is rewritten against the index of its whole subtree, which is entered before the rewrite |
| SvgWalk.ProcessNodeFrame | fix-svg-style.go:110-142 | `process(h)` changes only style values of nodes in h's subtree |
| SvgWalk.ProcessChildrenFrame | fix-svg-style.go:118-120 | the children loop changes only the subtrees of those children |
| SvgPrune.CollectDeadSpec | fix-svg-style.go:153-161 | `toRemove` is exactly the dead `linearGradient` children, in sibling order; the cache stays faithful |
| SvgPrune.CollectDeadFails | fix-svg-style.go:153-161 | the collection fails exactly when some gradient child's resolution fails |
| SvgPrune.DeadRefMembers | fix-svg-style.go:154-159 | a child is collected iff it is a child of the defs element that is dead |
| SvgPrune.Without | fix-svg-style.go:163-166 | after the removals, the children left are exactly those not removed |
| SvgPrune.WithoutKeepsOrder | fix-svg-style.go:163-166 | the children left keep their order |
| SvgPrune.WithoutValid | fix-svg-style.go:165 | removal keeps a valid arena |
| SvgPrune.PruneDefs | fix-svg-style.go:152-166 | one defs element's sweep keeps the arena valid and never clears `changed` |
| SvgPrune.PruneDefsSpec | fix-svg-style.go:152-166 | the sweep removes exactly the dead gradient children and keeps every other child in order; nothing else changes; any removal sets `changed` |
| SvgPrune.PruneRoots | fix-svg-style.go:149-168 | the sweep over all roots keeps the arena valid and never clears `changed` |
| SvgPrune.PruneRootsKeeps | fix-svg-style.go:149-168 | only direct defs children of a root lose children, and only `linearGradient` ones; any loss sets `changed` |
| SvgPrune.ProcessSvgOutcome | fix-svg-style.go:68-171 | without a panic or an endless loop: tags, kinds, keys and non-style values stay, and only defs children of roots lose `linearGradient` nodes, in order |
| SvgFix.SvgFixer.constructor | fix-svg-style.go:69-79 | a fresh call: empty index, empty cache, `changed` false |
| SvgFix.SvgFixer.FollowHref | fix-svg-style.go:85-92 | the `for {}` loop computes FollowChain |
| SvgFix.SvgFixer.FreshPaint | fix-svg-style.go:85-107 | the resolution after the cache lookup computes ResolveFresh |
| SvgFix.SvgFixer.ResolveColor | fix-svg-style.go:80-108 | `resolveColor(id)` computes ResolveCached and updates the cache as it says |
| SvgFix.SvgFixer.ReplaceMatch | fix-svg-style.go:124-140 | one closure call computes the step of RewriteRefsFrom |
| SvgFix.SvgFixer.ReplaceStep | fix-svg-style.go:124-140 | one scan step copies a character or replaces a reference, as RewriteRefsFrom does |
| SvgFix.SvgFixer.ReplaceRefs | fix-svg-style.go:124-140 | `ReplaceAllStringFunc` computes RewriteRefs |
| SvgFix.SvgFixer.SetStyle | fix-svg-style.go:122-141 | `style.Val = v` changes only that value |
| SvgFix.SvgFixer.RewriteNodeStyle | fix-svg-style.go:122-141 | the style rewrite computes RewriteStyle |
| SvgFix.SvgFixer.Process | fix-svg-style.go:110-142 | `process(node)` computes ProcessNode |
| SvgFix.SvgFixer.ProcessChildNodes | fix-svg-style.go:118-120 | the children loop computes ProcessChildren |
| SvgFix.SvgFixer.CollectRemovals | fix-svg-style.go:153-161 | the collection loop computes CollectDead |
| SvgFix.SvgFixer.RemoveChildren | fix-svg-style.go:163-166 | removing the collected children leaves exactly the others, and sets `changed` iff any was removed |
| SvgFix.SvgFixer.SweepDefs | fix-svg-style.go:152-166 | one defs element's sweep computes PruneDefs |
| SvgFix.SvgFixer.ProcessAll | fix-svg-style.go:144-146 | the roots loop computes ProcessRoots |
| SvgFix.SvgFixer.Sweep | fix-svg-style.go:149-168 | the sweep computes PruneRoots |
| SvgFix.ProcessSVG | fix-svg-style.go:68-171 | `ProcessSVG` returns ProcessSvgSpec: `changed` and the document after, or the error that stands for the panic or endless loop |
| Base.GoDivTruncates | update.go:397 | Go's `/` leaves a remainder smaller than the divisor with the sign of the dividend; on non-negative operands it is Dafny's `/` |
| Base.CeilDiv | update.go:94 | `(n + c - 1) / c` is the smallest r with r*c >= n |
| Base.CellOfIndex | update.go:114-129 | the cell y*c + x of rows of c cells is column x of row y |
| Base.ScaledSide | collage.go:88-94 | `cell * a / b` for a <= b lies between 0 and cell, and brackets the exact quotient |
| Geometry.Rect | update.go:95 | `image.Rect` orders the corners: the result is well formed and spans the same coordinates |
| Geometry.ScaleToSquare | collage.go:86-94 | the longer side becomes the cell; a square takes the second branch; both sides stay within [0, cell] |
| Geometry.Centred | twitterify.go:50-53 | the offset `size/2 - src/2` places src inside size with margins differing by at most one, and no offset when src fills size |
| FilePath.Contains | thumbs.go:107 | `strings.Contains` holds iff the text occurs at some position |
| FilePath.ExtSpec | update.go:430-432 | `filepath.Ext` is a suffix starting at the final element's last `.`, or "" when that element has none |
| FilePath.ReplaceExtAppends | update.go:430-432 | with no extension, `ReplaceExt` only appends |
| FilePath.ReplaceExtRoundTrip | update.go:430-432 | after `ReplaceExt(p, e)` the extension is e, and replacing it again changes nothing |
| FilePath.ExtOfExtSuffix | update.go:430-432 | a path that ends in a proper extension has that extension |
| FilePath.Join | split-sheet.go:78 | `filepath.Join(dir, name)` joins the two with one separator, and an empty element is dropped |
| Update.GridColumns | update.go:90-92 | the column count is min(count, columnsPerRow) |
| Update.CollageGridFits | update.go:89-95 | the grid holds every image, wastes less than one row, and image k sits at column k mod cols of row k div cols |
| Update.Collage.constructor | update.go:89-106 | `NewCollage` clamps the columns, and its image is cols*cell by ceil(count/cols)*cell; no link yet, cursor at 0 |
| Update.Collage.Bounds | update.go:108-112 | the cell-sized square with its min corner at (x*cell, y*cell) |
| Update.Collage.Draw | update.go:114-129 | appends one link for the cell at the old cursor; the cursor then advances row-major, to (links mod cols, links div cols) |
| Update.FitBoundsIntoFrame | update.go:381-407 | the image stands on the frame's bottom edge and is centred on frame.Min.X + frameX/2; portrait takes the frame height, otherwise the frame width |
| Update.FitInsideSquare | update.go:381-407 | in a square frame the fitted image lies inside the frame |
| Update.DownscaleSize | update.go:198-207 | a thumbnail is `size` high, and its width w satisfies w*Dy <= Dx*size < (w+1)*Dy |
| Update.Thumbs.constructor | update.go:173-179 | a Thumbs value with no links |
| Update.Thumbs.ExportSvg | update.go:181-196 | `ExportSVG` appends one link with empty bounds |
| Update.Thumbs.Downscale | update.go:198-213 | `Downscale` returns bounds (0,0)-DownscaleSize and appends one link with those bounds |
| Update.Thumbs.AddFile | update.go:240-267 | one directory entry appends EntryLinks for it |
| Update.NameLessIrreflexive | update.go:415-417 | `FileInfos.Less` is irreflexive |
| Update.NameLessTransitive | update.go:415-417 | `FileInfos.Less` is transitive |
| Update.NameLessTotal | update.go:415-417 | distinct names are ordered one way or the other |
| Update.SortByName | update.go:232 | `sort.Sort` yields a permutation of the entries |
| Update.SortByNameSorted | update.go:232 | the sorted entries are ordered by name |
| Update.EntryLinks | update.go:241-260 | a `.sheet.` name makes no link; `.svg` makes an export link; an image that loads makes a downscaled link; a load failure makes none |
| Update.ThumbLinksPng | update.go:245-249 | every thumbnail path ends in `.png`, and there is at most one link per entry |
| Update.MakeThumbs | update.go:215-270 | an empty folder gives nil; otherwise the entries are sorted by name and linked in that order |
| Update.ThumbsIndexUntitled | update.go:326-345 | without titles the index is one line per link over all sets in order, then a blank line |
| Update.SetsTextAppend | update.go:331-342 | the index text of the sets a + b is that of a followed by that of b: each set is written on its own, in order |
| Update.WriteLinks | update.go:337-341 | the inner loop writes one `[<img src="T">](A)` line per link, in order |
| Update.CreateThumbsIndex | update.go:326-345 | the buffer holds ThumbsIndex: optional header per set, link lines, final blank line |
| Twitterify.AtLeast | twitterify.go:35-40 | the value raised to the minimum: at least both, and one of them |
| Twitterify.NewCanvas | twitterify.go:56-61 | a canvas of the padded size with the frame's palette; every pixel is the frame's first pixel unless transparent |
| Twitterify.DupAt | twitterify.go:69-81 | duplicate mode: 2n-1 outputs, and output j shows input j / 2 |
| Twitterify.RepeatLength | twitterify.go:91-102 | repeat mode gives n * max(repeat, 1) entries |
| Twitterify.RepeatAt | twitterify.go:91-102 | repeat mode: output j shows input j mod n |
| Twitterify.RepeatPrefix | twitterify.go:91-102 | the repetition starts with the first pass unchanged |
| Twitterify.FirstPassStep | twitterify.go:69-88 | one more frame appends two copies in duplicate mode (one for the last frame), one otherwise |
| Twitterify.Delays | twitterify.go:64-67 | one delay per frame: the duration when positive, else the source's; halved in duplicate mode |
| Twitterify.Disposals | twitterify.go:72-86 | the disposals are none or one per frame |
| Twitterify.LengthenAt | twitterify.go:69-102 | duplication or repetition gives OutCount entries, entry j being source entry SourceIndex |
| Twitterify.TwitterifyGifShape | twitterify.go:55-102 | frames, delays and disposals stay in lockstep: 2n-1 with halved delays when duplicating, n*max(repeat,1) cycling through the source otherwise |
| Twitterify.SourceInRange | twitterify.go:69-102 | every output entry comes from a source entry |
| Twitterify.TwitterifyGifHeader | twitterify.go:34-48 | the canvas is never smaller than the source; loop count and background index are copied |
| Twitterify.MakeFrame | twitterify.go:56-62 | one frame: padded canvas, fill, and the source composited at the offset |
| Twitterify.FramePass | twitterify.go:55-89 | the per-frame loop builds the first pass of frames, delays and disposals |
| Twitterify.RepeatPass | twitterify.go:91-102 | the repeat loop yields the first pass repeated max(repeat, 1) times |
| Twitterify.HandleGif | twitterify.go:26-110 | `handleGif` after decoding produces TwitterifyGif |
| Twitterify.HandlePngPlaced | twitterify.go:118-135 | a decoded PNG lands inside the canvas, centred, on white unless transparent |
| Twitterify.NoPadding | twitterify.go:126-129 | an image already big enough is placed where it is, at offset 0 |
| NormalizeAlpha.Background | normalize-alpha.go:35-38 | the first pixel when it is transparent, else transparent black; its alpha byte is 0 |
| NormalizeAlpha.PixelOf | normalize-alpha.go:40-44 | pixel p of the result is pixel p of the input with a transparent one replaced |
| NormalizeAlpha.NormalizedPixel | normalize-alpha.go:40-44 | a transparent pixel becomes the background; others are kept byte for byte; no alpha byte changes |
| NormalizeAlpha.BackgroundStable | normalize-alpha.go:35-38 | the output decides the same background |
| NormalizeAlpha.NormalizeIdempotent | normalize-alpha.go:35-44 | a second pass on the output changes nothing |
| NormalizeAlpha.NormalizeStep | normalize-alpha.go:40-44 | one more pixel of the loop fixes that pixel and leaves the rest of the buffer untouched |
| NormalizeAlpha.FixPixel | normalize-alpha.go:41-43 | the `copy` into a transparent pixel, in place; other bytes unchanged |
| NormalizeAlpha.NormalizePix | normalize-alpha.go:35-44 | the in-place loop leaves the buffer equal to Normalized of the old buffer |
| NormalizeAlpha.HandleDecoded | normalize-alpha.go:28-44 | an image that is not NRGBA gives the "not RGBA" error and no rewrite; otherwise the buffer is normalised |
| FileWalk.CallsInOrder | collage.go:34-50 | Walk passes entries to the walk function in walk order, each at most once |
| FileWalk.CallsEnded | collage.go:35-37 | the walk has ended iff one of the calls returned an error |
| FileWalk.CallsSkips | collage.go:38-40 | the scopes the walk cuts off are exactly those of the calls that returned `SkipDir` |
| FileWalk.SkippedAppend | collage.go:38-40 | one more `SkipDir` cuts off what was cut off before plus its own scope |
| FileWalk.CallsOpen | collage.go:34-50 | an entry reaches the walk function iff no earlier call returned an error and no earlier `SkipDir` cut off a scope that holds it |
| FileWalk.CallsStays | collage.go:35-37 | once a call has returned an error, later entries change nothing |
| FileWalk.SkipCutsOff | collage.go:38-40 | after `SkipDir` for an entry, no later entry in its scope reaches the walk function: below a directory, or in the directory holding a file |
| FileWalk.SkipDirNotEntered | thumbs.go:98-100 | after `SkipDir` for a directory, nothing below it reaches the walk function |
| FileWalk.FailEnds | collage.go:35-37 | after an error, no later entry reaches the walk function |
| FileWalk.SkipNameEndsWalk | collage.go:38-40 | `SkipDir` for a file directly in "." cuts off every later entry |
| FileWalk.ContinueAll | collage.go:34-50 | when every answer is nil, every entry reaches the walk function, in order |
| CollageTool.FilesFromSpec | collage.go:41-48 | the calls collect exactly the paths of those of their entries that are `.png`/`.jpg` files other than `.git` and the output, with no error |
| CollageTool.CollectedPaths | collage.go:34-50 | a path is collected iff Walk passes its entry to the walk function and the entry is such a file |
| CollageTool.CollectStopped | collage.go:35-37 | the walk stops iff an entry that reaches the walk function carries an error |
| CollageTool.CollectReachesAll | collage.go:34-50 | with no error and no `.git`, every entry reaches the walk function |
| CollageTool.GitDirNotEntered | collage.go:38-40 | nothing below a `.git` directory reaches the walk function |
| CollageTool.GitFileEndsWalk | collage.go:38-40 | a `.git` file, also answered with `SkipDir`, cuts off every later entry of a walk of "." |
| CollageTool.CollectFiles | collage.go:34-50 | Walk with the walk function of `main`, skipping what `SkipDir` and errors cut off, gathers exactly the files of Collect |
| CollageTool.CollectedAsWrittenMisses | collage.go:48 | walking "gophers" with one image, the collected path names no file the walk saw; without the join, the path is that image |
| CollageTool.KeptSpec | collage.go:52-69 | an image is kept iff its file loads and is at least 64 on both sides |
| CollageTool.LoadImages | collage.go:52-69 | the loading loop keeps exactly Kept, in order |
| CollageTool.Permute | collage.go:71-74 | a fresh array with images[perm[src]] == ordered[src], every slot filled |
| CollageTool.Canvas | collage.go:76-79 | the canvas is cell*cols wide and cell*ceil(n/cols) high |
| CollageTool.PlacementInCell | collage.go:82-102 | the image gets the scaled size, lies inside its cell, and its margins differ by at most one on both axes |
| CollageTool.CellOnCanvas | collage.go:76-84 | the cell of every image lies on the canvas |
| CollageTool.RowInRange | collage.go:78-84 | image i of n is in one of the rows |
| CollageTool.Layout | collage.go:76-102 | the drawing loop computes the canvas and each image's rectangle as Canvas and Placement |
| ThumbsTool.SavePath | thumbs.go:37-61 | the name `savejpg` (`.jpg`) or `savepng` (`.png`) writes has that extension and is the path with its extension replaced; replacing again changes nothing |
| ThumbsTool.JobFor | thumbs.go:69-81 | a thumbnail has a `.jpg` name and the scaled size |
| ThumbsTool.JobSize | thumbs.go:69-74 | the longer side is the cell, and neither side exceeds it |
| ThumbsTool.Loaded | thumbs.go:106-112 | the calls whose entries are wanted images that load, in the order of the calls: an index is in it iff it is such a call |
| ThumbsTool.WalkJobs | thumbs.go:93-113 | one thumbnail per entry that reaches the walk function and is a wanted image that loads, in walk order; thumbnail k is that entry's `.jpg` name and scaled size |
| ThumbsTool.WalkFails | thumbs.go:93-113 | the walk ends on an error iff some entry that reaches the walk function carries an error, or is a wanted image that fails to load |
| ThumbsTool.HiddenNotEntered | thumbs.go:98-100 | nothing below a hidden directory reaches the walk function, so nothing there gets a thumbnail |
| ThumbsTool.Process | thumbs.go:63-81 | `process` fails iff the image fails to load; otherwise it gives the thumbnail of JobFor |
| ThumbsTool.WalkThumbs | thumbs.go:93-113 | Walk with the walk function of `main`, skipping what `SkipDir` and errors cut off, computes Walk: the thumbnails and whether it ended on an error |
| ThumbsTool.WalkAsWrittenFails | thumbs.go:64 | walking "gophers" with one image, as written the walk ends on an error with no thumbnail; opening the reported path gives its 128x64 thumbnail |
| SplitSheet.OutName | split-sheet.go:78 | the output name ends in `gopher-<name>.png` and has extension `.png` |
| SplitSheet.JobFor | split-sheet.go:71-78 | the target is W x H at the origin, the source point is (X, Y), and the white fill is on iff not transparent |
| SplitSheet.SplitTagsJobs | split-sheet.go:68-84 | job k is the job of tag k and its first frame, in tag order |
| SplitSheet.SplitTagsPrefix | split-sheet.go:68-84 | the jobs come from a run of tags in range from the start: on failure the loop stops at the first tag out of range, otherwise there is one job per tag |
| SplitSheet.SplitTagsFails | split-sheet.go:68-70 | the loop fails iff some tag's frame index is out of range |
| SplitSheet.MakeJob | split-sheet.go:69-83 | the loop body computes JobFor |
| SplitSheet.SplitAtlas | split-sheet.go:68-84 | the loop computes SplitTags: the jobs, and whether it exited on a bad index |

## Left out

- File and directory I/O: reading and writing files, creating folders,
  `ioutil.ReadDir`, and the directory reads and `Lstat` calls of
  `filepath.Walk`. The entries Walk reaches, in lexical pre-order, are a
  list taken as given. A directory whose listing fails is a single entry
  that carries the error. Flag parsing, logging and the `main` wiring of each
  tool are left out too.
- Codecs (`image.Decode`, `png`, `jpeg`, `gif`) and the atlas JSON: decoded
  values are inputs. A decode failure is the `None` of `load`.
- Pixel work in `golang.org/x/image/draw` (`draw.Draw`, `CatmullRom.Scale`).
  These are foreign code with float kernels; only the rectangles passed to
  them are modelled. In twitterify.go the compositing step is a parameter
  (`Compose`).
- HTML parsing and rendering (`html.ParseFragment`, `html.Render`) and
  `ProcessSVGFile`'s file handling (fix-svg-style.go:33-66).
- The tree is modelled as an arena in which every child has a larger index
  than its parent. Nodes shared between trees, and non-tree pointer graphs,
  are not modelled.
- `atom.Lookup` in `GetElementsByTagName` (fix-svg-style.go:194-197): tags
  are matched by name equality. This takes `stop` and `defs` to be names that
  the HTML atom table does not hold.
- Attribute namespaces: a key is matched as written.
- Regular expressions are modelled by scanners for the four patterns only
  (three scanners: fill and stroke share one), with Go's leftmost-first
  semantics. A general regular expression
  engine is not modelled.
- The Inkscape subprocess of `ExportSVG` (update.go:181-196): only the link
  it appends is modelled.
- `MakeCollage` and `CreateCollageIndex` (update.go:131-171, 347-379): these
  are pixel drawing and output plumbing around `NewCollage` and `Draw`.
- `SaveImage`, `SaveJPG` and `SavePNG` (update.go:434-468): extension
  dispatch followed by I/O.
- Update.FitBoundsIntoFrame: the float64 aspect test of update.go:386-388 is
  the integer comparison `X < Y`, which agrees with it for positive sizes.
- Update.SortByName: `sort.Sort` is modelled by an insertion sort with the
  same result. The names are distinct in a directory listing, so the order
  of equal names does not arise.
- Update.MakeThumbs: errors from `SavePNG` are not modelled (they are only
  logged). `ReadDir` is its entry list.
- `rand.Perm` (collage.go:72): the permutation is a parameter, with the
  property that it is a permutation.
- CollageTool.Layout requires `cols > 0`: collage.go:78 divides by `cols`
  and a zero flag panics there. The requirement also excludes a negative
  `-c` value, on which Go does not panic. The canvas width `cell*cols` is
  then negative, `image.Rect` reorders the corners, and the truncating `/`
  and `%` of collage.go:78-84 put the cells where they no longer line up
  with the canvas. The model does not capture that run.
- `filepath.Walk`'s own source is not part of this model. `FileWalk`
  follows its documented behaviour, described above.
- ThumbsTool.WalkThumbs: a failure to save a thumbnail also ends the walk
  in thumbs.go:81, and this is not modelled. The `files` slice of
  thumbs.go:93, 111 is never read, so it is not modelled.
- FilePath.Join: `filepath.Clean` is not applied. Joining "." to a name gives
  "./name", which names the same file as Go's "name". The separator is
  fixed to `/`, i.e. the model is of a Unix platform, where
  `filepath.ToSlash` is the identity. update.go is written for Windows
  (update.go:27's `InkscapePath` is a `c:\` path): there `filepath.Join`
  uses `\`, and update.go:333-368 call `ToSlash` to turn the joined paths
  into `/` form for the HTML; the model does not capture the `\` form.
- Twitterify.Fillable: `FrameOut`, `Frames`, `TwitterifyGif`, `MakeFrame`,
  `FramePass` and `HandleGif` require it, and `NewCanvas` requires the same
  of its frame. It excludes a GIF frame with an empty `Pix` when the canvas
  is filled and not empty. Go panics on that frame at twitterify.go:59
  (`m.Pix[0]`), and the model does not capture that panic.
- Twitterify.Readable: the GIF members above require it as well.
  twitterify.go:64-98 indexes `Delay` and `Disposal` by frame without a
  check, and Go panics when they are shorter than `Image`. The model does
  not capture that panic either.
- Twitterify.HandlePngPlaced: it requires the decoded bounds to start at
  the origin, as `png.Decode` produces them. The main dispatch on the file
  extension (twitterify.go:166-179) and the decode and encode errors are
  left out.
- split-sheet.go's usage check (lines 49-52) and the `handlePng` stub
  (lines 42-45, which does nothing) are left out. Output file errors are not
  modelled either.
- Integers are unbounded. The Go `int` products of the layout code
  (`cell*cols`, `size.Y*cell`) do not overflow for image sizes, so
  wrap-around is not modelled.

## Findings

| source | as written | input that shows it | evidently intended | confidence | as-written member | corrected member |
|---|---|---|---|---|---|---|
| collage.go:48 | the collected path is `filepath.Join(dir, path)`, but the path `Walk` reports already starts with dir | `collage gophers` with one image gophers/a.png collects "gophers/gophers/a.png", which does not exist; the image is logged and skipped | collect `path` as reported (works for dir "." only as written) | high, not executed | CollageTool.CollectedAsWrittenMisses | CollageTool.CollectedPaths |
| thumbs.go:64 | `process` opens `filepath.Join(dir, path)`, but the reported path already starts with dir | `thumbs gophers` with one image gophers/a.png opens "gophers/gophers/a.png", fails, and the error ends the whole walk with no thumbnail | open `path` as reported | high, not executed | ThumbsTool.WalkAsWrittenFails | ThumbsTool.WalkJobs |
