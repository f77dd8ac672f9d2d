/**
 * The extension switch of `listFile`: Go's `filepath.Ext` and the choice of the
 * path that is decoded next.
 */
module Dispatch {
  import opened Wrappers

  /** The platform decides which characters separate path elements. */
  datatype Os = Unix | Windows

  /** Go's `os.IsPathSeparator`: `/` everywhere, and also `\` on Windows. */
  predicate IsPathSeparator(os: Os, ch: char)
  {
    ch == '/' || (os == Windows && ch == '\\')
  }

  /** Scans `path[..n]` backwards for the last dot of its final element, as `filepath.Ext` does. */
  function ExtFrom(os: Os, path: string, n: nat): (e: string)
    requires n <= |path|
    ensures |e| <= |path| && e == path[|path| - |e|..]
    ensures e != [] ==> |path| - |e| < n && e[0] == '.' &&
                        forall k :: |path| - |e| < k < n ==> path[k] != '.' && !IsPathSeparator(os, path[k])
    ensures e == [] ==>
              forall k :: 0 <= k < n && path[k] == '.' ==> exists j :: k < j < n && IsPathSeparator(os, path[j])
    decreases n
  {
    if n == 0 then ""
    else if IsPathSeparator(os, path[n - 1]) then ""
    else if path[n - 1] == '.' then path[n - 1..]
    else ExtFrom(os, path, n - 1)
  }

  /**
   * `filepath.Ext`: the suffix of `path` from the last dot of its final element,
   * or the empty string when that element has no dot.
   */
  function Ext(os: Os, path: string): (e: string)
    ensures |e| <= |path| && e == path[|path| - |e|..]
    ensures e != [] ==> e[0] == '.' && forall k :: 1 <= k < |e| ==> e[k] != '.' && !IsPathSeparator(os, e[k])
    ensures e == [] ==>
              forall k :: 0 <= k < |path| && path[k] == '.' ==> exists j :: k < j < |path| && IsPathSeparator(os, path[j])
  {
    var e := ExtFrom(os, path, |path|);
    assert e != [] ==> forall k :: 1 <= k < |e| ==> e[k] == path[|path| - |e| + k];
    e
  }

  /** What the switch does before decoding. */
  datatype Conversion = SvgToPng | JpegToPng | Direct

  /** The `switch ext`: exact, case-sensitive comparison against three literals. */
  function Classify(ext: string): (k: Conversion)
    ensures k == SvgToPng <==> ext == ".svg"
    ensures k == JpegToPng <==> ext == ".jpg" || ext == ".jpeg"
    ensures k == Direct <==> ext != ".svg" && ext != ".jpg" && ext != ".jpeg"
  {
    match ext
    case ".svg" => SvgToPng
    case ".jpg" => JpegToPng
    case ".jpeg" => JpegToPng
    case _ => Direct
  }

  /**
   * The path decoded next, or `None` when the file is skipped because its
   * conversion (`convertSVGToPNG` / `convertJPEGToPNG`) failed;
   * `converted` is that conversion's outcome.
   */
  function WorkingPath(os: Os, path: string, converted: bool): (r: Option<string>)
    ensures r == None <==> Classify(Ext(os, path)) != Direct && !converted
    ensures r.Some? && Classify(Ext(os, path)) == Direct ==> r.value == path
    ensures r.Some? && Classify(Ext(os, path)) != Direct ==> r.value == path + ".png"
  {
    match Classify(Ext(os, path))
    case Direct => Some(path)
    case _ => if converted then Some(path + ".png") else None
  }

  /** The extension of a name ending in a dot followed by dot-free, separator-free text is exactly that ending. */
  lemma ExtOfSuffix(os: Os, prefix: string, ext: string)
    requires |ext| >= 1 && ext[0] == '.'
    requires forall k :: 1 <= k < |ext| ==> ext[k] != '.' && !IsPathSeparator(os, ext[k])
    ensures Ext(os, prefix + ext) == ext
  {
    var p := prefix + ext;
    var d := |prefix|;
    var e := Ext(os, p);
    assert p[d] == '.';
    forall j | d < j < |p|
      ensures p[j] != '.' && !IsPathSeparator(os, p[j])
    {
      assert p[j] == ext[j - d];
    }
    assert e != [];
    var start := |p| - |e|;
    assert start == d;
    assert e == p[d..];
    assert p[d..] == ext;
  }

  /**
   * The path to decode is never one that would need converting again: a
   * converted file's `.png` sibling goes straight to decoding.
   */
  lemma WorkingPathIsDirect(os: Os, path: string, converted: bool)
    requires WorkingPath(os, path, converted).Some?
    ensures Classify(Ext(os, WorkingPath(os, path, converted).value)) == Direct
    ensures WorkingPath(os, WorkingPath(os, path, converted).value, converted) == WorkingPath(os, path, converted)
  {
    if Classify(Ext(os, path)) != Direct {
      ExtOfSuffix(os, path, ".png");
    }
  }

  /**
   * The original path is always kept as a prefix: conversion appends `.png`
   * rather than replacing the extension.
   */
  lemma WorkingPathKeepsOriginal(os: Os, path: string, converted: bool)
    requires WorkingPath(os, path, converted).Some?
    ensures path <= WorkingPath(os, path, converted).value
    ensures WorkingPath(os, path, converted).value == path || WorkingPath(os, path, converted).value == path + ".png"
  {
  }

  /** Upper-case spellings are not recognised: a `.JPG` or `.SVG` file is decoded as it is. */
  lemma UpperCaseExtensionsPassThrough(os: Os, stem: string, converted: bool)
    ensures WorkingPath(os, stem + ".JPG", converted) == Some(stem + ".JPG")
    ensures WorkingPath(os, stem + ".SVG", converted) == Some(stem + ".SVG")
  {
    ExtOfSuffix(os, stem, ".JPG");
    assert ".JPG"[1] != ".jpg"[1];
    ExtOfSuffix(os, stem, ".SVG");
    assert ".SVG"[1] != ".svg"[1];
  }

  /** A `.png` file is decoded directly. */
  lemma PngPassesThrough(os: Os, stem: string, converted: bool)
    ensures WorkingPath(os, stem + ".png", converted) == Some(stem + ".png")
  {
    ExtOfSuffix(os, stem, ".png");
  }

  /** A `.jpg`, `.jpeg` or `.svg` file is decoded from its appended `.png` sibling, and skipped when conversion fails. */
  lemma RecognisedExtensionsConvert(os: Os, stem: string, ext: string)
    requires ext == ".jpg" || ext == ".jpeg" || ext == ".svg"
    ensures WorkingPath(os, stem + ext, true) == Some(stem + ext + ".png")
    ensures WorkingPath(os, stem + ext, false) == None
  {
    ExtOfSuffix(os, stem, ext);
  }
}
