# Dominant icon colour, modelled in Dafny

This project models the dominant-colour extraction of the wappalyzergo icon
tool (`image/image.go`). For each icon the tool picks the working path from
the file extension. An `.svg` or `.jpg`/`.jpeg` file is first converted to a
`.png` sibling. The tool then decodes the working path to an RGBA raster. It
counts every exact RGBA value in a histogram, visiting rows y outer and
columns x inner. It keeps the colour with the strictly greatest count seen
while ranging over that histogram, and prints it as `#rrggbb`.
`FindDominantColor` does the same for one path and also maintains the two
run counters `total` and `totalExtracted`.

Modules, in dependency order:

- `Colors`: `RGBA` with 8-bit channels, and the zero colour.
- `Wrappers`: `Option` and `Result`, standing in for Go's `(value, error)` returns.
- `Images`: the rectangular raster (`Image`), its pixels in row-major order (`Pixels`), and per-colour counts (`CountOf`, the multiplicity in `Pixels`).
- `Histograms`: the reference histogram, the nested counting loops (`CountColors`), and the key orderings a Go `range` may take (`IsOrdering`).
- `Dominant`: the running-maximum loop (`SelectDominant`) and what a dominant colour is (`IsDominant`).
- `Hex`: `ColorToHex` and its inverse parser.
- `Dispatch`: Go's `filepath.Ext` and the extension switch (`WorkingPath`).
- `Pipeline`: `FindDominantColor` with its counters, and one iteration of `listFile`'s loop (`ProcessFile`).

Go's map iteration order is unspecified. Every member that ranges over the
histogram therefore takes the order as a parameter `order`. The parameter
must list each key exactly once. Every property is proved for every such
order.

Behaviours of the code worth knowing:

- Ties go to the first colour of maximal count in the map's iteration order, not in scan order, because the selection ranges over a Go map (`SelectDominant`, `DominantColor`).
- An image with no pixels yields `RGBA{0,0,0,0}` with count 0 (`IsDominant`).
- `listFile` never calls `FindDominantColor`. It repeats the counting inline, so the counters that `main` prints stay at 0 whatever the directory holds. `ProcessFile` therefore leaves the counters alone. Only `FindDominantColor` changes them.
- The computed colour is printed and never stored in a fingerprint record. No database update is modelled.

## Model

| member | source | states |
|---|---|---|
| Images.PixelsLength | image/image.go:108-109 | the visited pixel sequence has exactly width × height entries |
| Images.PixelsRowMajor | image/image.go:108-110 | grid position (x, y) is the (y·width + x)-th pixel visited: y outer, x inner, both ascending |
| Images.PixelsMember | image/image.go:108-110 | a colour is among the visited pixels exactly when some grid position holds it |
| Images.UniformCount | image/image.go:107-113 | in an image whose every pixel is c, c's count is width × height and no other colour occurs |
| Histograms.Increment | image/image.go:111 | `counts[c]++` on a map whose missing keys read as 0: c's count goes up by one, c becomes a key, other entries are unchanged |
| Histograms.CountColors | image/image.go:107-113 | the nested loops build a map whose keys are exactly the colours of the image, each mapped to its number of pixels; this equals the reference histogram |
| Histograms.CountRow | image/image.go:109-112 | the inner loop over one row adds each of that row's pixels, x ascending, to the running tally |
| Histograms.TallyTotal | image/image.go:107-113 | for every iteration order of its keys, a histogram's counts add up to the number of pixels it tallies |
| Histograms.OrderingExists | image/image.go:118 | every histogram has an iteration order listing each key exactly once, so the `range` loop can always run |
| Histograms.HistogramCounts | image/image.go:107-113 | a colour is a histogram key exactly when some grid position holds it; keys have positive counts equal to their pixel count, non-keys occur 0 times |
| Histograms.HistogramTotal | image/image.go:107-113 | for every iteration order of the keys, the counts add up to width × height |
| Dominant.SelectDominant | image/image.go:116-123 | for every iteration order: the result's count is ≥ every count; a positive maximum belongs to a key, the first in iteration order to reach it (strict `>`); a zero maximum leaves the zero colour |
| Dominant.DominantColor | image/image.go:107-123 | for every iteration order: an empty image yields the zero colour with count 0; otherwise a colour of the image whose pixel count is ≥ that of every colour, the first of maximal count in iteration order |
| Dominant.DominantExists | image/image.go:107-123 | every image, empty or not, has an admissible dominant colour and count |
| Dominant.UniformDominant | image/image.go:107-123 | when every pixel of a non-empty image is c, the dominant colour is c and its count is width × height |
| Dominant.DominantCountUnique | image/image.go:116-123 | all admissible answers share one count, which is 0 exactly for an empty image |
| Hex.Hex2 | image/image.go:300 | `%02x` of a channel is two lower-case hex digits whose value is the channel |
| Hex.ColorToHex | image/image.go:299-301 | the rendering is 7 characters: `#` then R, G and B as two lower-case hex digits each |
| Hex.ParseColorToHex | image/image.go:299-301 | parsing a rendering gives back exactly (R, G, B) |
| Hex.ColorToHexOfParse | image/image.go:299-301 | every `#rrggbb` string with lower-case digits is the rendering of the colour it parses to, for any alpha |
| Hex.ColorToHexInjective | image/image.go:299-301 | two colours render alike if and only if their R, G and B agree, so alpha never matters |
| Hex.ColorToHexExamples | image/image.go:299-301 | (255,0,128,a) renders as `#ff0080`, (0,0,0,a) as `#000000`, opaque red as `#ff0000` |
| Dispatch.ExtFrom | image/image.go:155 | the backward scan of `filepath.Ext` returns a suffix that is empty or starts at a dot after which, within the scanned part, there is no dot or separator; it returns empty only when every dot is followed by a separator |
| Dispatch.Ext | image/image.go:155 | `filepath.Ext` returns the suffix from the last dot of the final path element, or empty when that element has no dot |
| Dispatch.ExtOfSuffix | image/image.go:155 | a path ending in a dot followed by dot-free, separator-free text has exactly that ending as extension |
| Dispatch.Classify | image/image.go:156-173 | exactly `.svg` selects SVG conversion, exactly `.jpg` or `.jpeg` selects JPEG conversion, and every other string selects direct decoding |
| Dispatch.WorkingPath | image/image.go:155-173 | recognised extensions decode `path + ".png"` after a successful conversion and skip the file after a failed one; every other path is decoded unchanged |
| Dispatch.WorkingPathIsDirect | image/image.go:155-173 | the working path never needs a further conversion, so dispatching it again yields the same path |
| Dispatch.WorkingPathKeepsOriginal | image/image.go:155-173 | the original path is a prefix of the working path, which is the path itself or the path with `.png` appended |
| Dispatch.UpperCaseExtensionsPassThrough | image/image.go:156-165 | matching is case-sensitive: `.JPG` and `.SVG` files are decoded unchanged |
| Dispatch.PngPassesThrough | image/image.go:156-173 | a `.png` file is decoded unchanged |
| Dispatch.RecognisedExtensionsConvert | image/image.go:156-172 | `.jpg`, `.jpeg` and `.svg` files are decoded from `<path>.png` after a successful conversion and skipped after a failed one |
| Pipeline.FindDominantColor | image/image.go:85-126 | `total` goes up by exactly one on every call and `totalExtracted` exactly on success, so extracted ≤ total is preserved; unopenable and undecodable files give the matching error; success returns a dominant colour of the decoded image |
| Pipeline.ProcessFile | image/image.go:150-226 | a failed conversion skips the file; an unopenable or undecodable working path ends the run; otherwise the file's name is reported with the hex rendering of a dominant colour of the decoded image |

## Left out

- Reading and writing the fingerprint database (`readMainFile`, `writeMainFile`): file I/O and JSON of a schema owned elsewhere. The code never attaches the colour to a record.
- The decoders and rasterizers (`image.Decode`, `gg.NewContextForImage`, `rasterizer.NewCanvas` and `DrawImage`): foreign libraries. Their output is taken as an arbitrary rectangular RGBA raster with bounds starting at (0, 0). Any failure of decoding or rasterizing is one state, `Undecodable`.
- The bodies of `convertSVGToPNG` and `convertJPEGToPNG`: file creation and rendering. Only their outcome is modelled, as the flag `converted`. The file-system map describes the files after that conversion.
- Directory listing, the regular-file test, `filepath.Join`, console printing and the process exit of `log.Fatal`: I/O. `ProcessFile` takes the joined path and returns `Fatal` instead of exiting. The loop over directory entries is not modelled.
- Deferred `Close` calls: in `listFile` the `defer file.Close()` sits inside the loop, so every opened file stays open until `listFile` returns. A later `os.Open` can then fail for lack of file handles and take the `log.Fatal` path. The model covers that outcome only as a path absent from the file-system map, for which `ProcessFile` returns `Fatal`; handle exhaustion itself is not modelled.
- Integer widths: Go's `int` counts in the histogram and the `total`/`totalExtracted` counters are modelled as unbounded `nat`. Overflow would need more than 2^63 pixels or calls, so no reachable behaviour is lost.
- SVG decoding: the file registers only the JPEG and PNG decoders, so unless some imported package registers an SVG decoder, `image.Decode` inside `convertSVGToPNG` rejects SVG text and every `.svg` file is skipped. The model leaves the conversion outcome free (`converted`), which includes that case; this was not confirmed against the dependencies.
- `image/findDominantColor.py`: a KMeans clustering over floating-point centroids in foreign libraries.
- Dispatch.Ext: works on characters where Go works on bytes. The result is the same because no byte of a multi-byte UTF-8 character is `.`, `/` or `\`.
- Dominant.SelectDominant: promises the first maximal colour in the given iteration order, not in row-major scan order. The Go map order is unspecified, so the code promises no more.
