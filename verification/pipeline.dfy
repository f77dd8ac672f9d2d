/**
 * `FindDominantColor` with its two run counters, and the per-file body of
 * `listFile`: dispatch, decode, histogram, selection and the hex report.
 */
module Pipeline {
  import opened Colors
  import opened Wrappers
  import opened Images
  import opened Histograms
  import opened Dominant
  import opened Hex
  import opened Dispatch

  /** The process-wide `total` and `totalExtracted`. */
  datatype Counters = Counters(total: nat, extracted: nat) {

    /** No more images are extracted than are considered. */
    predicate Valid() {
      extracted <= total
    }
  }

  /** Both counters start at zero. */
  const Initial: Counters := Counters(0, 0)

  /**
   * What opening and decoding a path yields. `Decodes` carries the RGBA raster
   * the decoder and the rasterizing pass produce; `Undecodable` stands for any
   * failure after the file was opened.
   */
  datatype FileState = Undecodable | Decodes(img: Image)

  /** The files on disk; a path that is not a key cannot be opened. */
  type FileSystem = map<string, FileState>

  datatype Error = OpenError | DecodeError

  /** `order` is a possible iteration order of the histogram of the image stored at `path`, if any. */
  ghost predicate OrderFor(fs: FileSystem, path: string, order: seq<RGBA>)
  {
    path in fs && fs[path].Decodes? ==> IsOrdering(order, Histogram(fs[path].img))
  }

  /**
   * `FindDominantColor`: counts the call in `total`, fails on an unopenable or
   * undecodable file, and otherwise returns the dominant colour and counts it
   * in `totalExtracted`.
   */
  method FindDominantColor(fs: FileSystem, path: string, order: seq<RGBA>, counters: Counters)
    returns (r: Result<RGBA, Error>, next: Counters)
    requires OrderFor(fs, path, order)
    ensures next.total == counters.total + 1
    ensures next.extracted == counters.extracted + (if r.Success? then 1 else 0)
    ensures counters.Valid() ==> next.Valid()
    ensures r == Failure(OpenError) <==> path !in fs
    ensures r == Failure(DecodeError) <==> path in fs && fs[path].Undecodable?
    ensures r.Success? ==> path in fs && fs[path].Decodes? &&
                           IsDominant(fs[path].img, r.value, CountOf(fs[path].img, r.value))
  {
    next := counters.(total := counters.total + 1);
    if path !in fs {
      return Failure(OpenError), next;
    }
    match fs[path]
    case Undecodable =>
      return Failure(DecodeError), next;
    case Decodes(img) =>
      var dominant, maxCount := DominantColor(img, order);
      next := next.(extracted := next.extracted + 1);
      return Success(dominant), next;
  }

  /** The three ways one regular file can end in `listFile`. */
  datatype FileOutcome =
    | Skipped                               // conversion failed: logged, next file
    | Fatal                                 // open, decode or rasterization failed: the run ends
    | Reported(name: string, hex: string)   // the printed dominant colour

  /**
   * The body of the `listFile` loop for one regular file named `name` at
   * `fullPath`. `converted` is the outcome of the SVG or JPEG conversion the
   * extension asks for (unused otherwise); `fs` is the file system once it has run,
   * so a successful conversion has created the `.png` sibling.
   */
  method ProcessFile(os: Os, fs: FileSystem, name: string, fullPath: string, converted: bool, order: seq<RGBA>)
    returns (out: FileOutcome)
    requires converted && Classify(Ext(os, fullPath)) != Direct ==> fullPath + ".png" in fs
    requires WorkingPath(os, fullPath, converted).Some? ==> OrderFor(fs, WorkingPath(os, fullPath, converted).value, order)
    ensures out == Skipped <==> WorkingPath(os, fullPath, converted) == None
    ensures out == Fatal <==>
              WorkingPath(os, fullPath, converted).Some? &&
              var p := WorkingPath(os, fullPath, converted).value; p !in fs || fs[p].Undecodable?
    ensures out.Reported? ==>
              WorkingPath(os, fullPath, converted).Some? &&
              var p := WorkingPath(os, fullPath, converted).value;
              p in fs && fs[p].Decodes? && out.name == name &&
              exists c :: IsDominant(fs[p].img, c, CountOf(fs[p].img, c)) && out.hex == ColorToHex(c)
  {
    var working := WorkingPath(os, fullPath, converted);
    if working.None? {
      return Skipped;
    }
    var p := working.value;
    if p !in fs || fs[p].Undecodable? {
      return Fatal;
    }
    var img := fs[p].img;
    var dominant, maxCount := DominantColor(img, order);
    assert IsDominant(img, dominant, CountOf(img, dominant));
    return Reported(name, ColorToHex(dominant));
  }
}
