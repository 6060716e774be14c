/**
 * The weighted-dataset materializer of `create_weighted_dataset.py`.
 *
 * For every row `(filename, weight)` of the weights table the image is copied
 * `max(1, round(weight))` times into the output tree, together with its label file
 * when one exists. Copy 0 keeps the original name; copy `i > 0` gets the suffix
 * `_copy{i}` before the extension.
 *
 * The file system is abstract: the source tree is the set of image names under the
 * source image directory and the set of label names under the source label
 * directory; the output tree maps every destination name to the source file it is a
 * copy of.
 */
module Replication {
  import opened Text
  import opened Strategy

  /** Python's `round` on a number: the nearest integer, a tie going to the even one. */
  function RoundHalfEven(x: real): (n: int)
    ensures -0.5 <= n as real - x <= 0.5
    ensures (n as real - x == 0.5 || n as real - x == -0.5) ==> n % 2 == 0
  {
    var f := x.Floor;
    var frac := x - f as real;
    if frac < 0.5 then f
    else if frac > 0.5 then f + 1
    else if f % 2 == 0 then f
    else f + 1
  }

  /** The two properties of `RoundHalfEven` single out its result. */
  lemma RoundHalfEvenUnique(x: real, n: int)
    requires -0.5 <= n as real - x <= 0.5
    requires (n as real - x == 0.5 || n as real - x == -0.5) ==> n % 2 == 0
    ensures n == RoundHalfEven(x)
  {
    var m := RoundHalfEven(x);
    assert -1.0 <= (n - m) as real <= 1.0;
  }

  /** `repeat_times`: the rounded weight, raised to 1 when it is smaller. */
  function RepeatTimes(weight: real): (n: nat)
    ensures n >= 1 && n >= RoundHalfEven(weight)
    ensures n == 1 || n == RoundHalfEven(weight)
  {
    var r := RoundHalfEven(weight);
    if r < 1 then 1 else r
  }

  /** Rounding ties go to even and small weights are raised to one copy. */
  lemma RepeatTimesExamples()
    ensures RepeatTimes(0.4) == 1 && RepeatTimes(2.4) == 2 && RepeatTimes(2.5) == 2
    ensures RepeatTimes(3.5) == 4 && RepeatTimes(3.6) == 4 && RepeatTimes(-1.0) == 1
  {
    RoundHalfEvenUnique(0.4, 0);
    RoundHalfEvenUnique(2.4, 2);
    RoundHalfEvenUnique(2.5, 2);
    RoundHalfEvenUnique(3.5, 4);
    RoundHalfEvenUnique(3.6, 4);
    RoundHalfEvenUnique(-1.0, -1);
  }

  /** A whole weight, as the allocator produces, is copied exactly that many times. */
  lemma RepeatTimesOfWholeWeight(k: nat)
    requires k >= 1
    ensures RepeatTimes(k as real) == k
  {
    RoundHalfEvenUnique(k as real, k);
  }

  /** A string of dots only (what `splitext` skips at the start of a base name). */
  predicate AllDots(s: string) {
    forall k :: 0 <= k < |s| ==> s[k] == '.'
  }

  /** A proper extension: a dot followed by characters other than dots and slashes. */
  predicate IsExtension(ext: string) {
    |ext| >= 1 && ext[0] == '.' && forall k :: 1 <= k < |ext| ==> ext[k] != '.' && ext[k] != '/'
  }

  /**
   * What follows the last dot of a path, when that dot comes after the last slash,
   * is an extension, and the path splits there.
   */
  lemma ExtensionAfterLastDot(p: string, sep: int, dot: int)
    requires sep == LastIndexOf(p, '/') && dot == LastIndexOf(p, '.') && sep < dot
    ensures p[..dot] + p[dot..] == p
    ensures IsExtension(p[dot..])
  {
    forall k | 1 <= k < |p| - dot
      ensures p[dot..][k] != '.' && p[dot..][k] != '/'
    {
      assert p[dot..][k] == p[dot + k];
    }
  }

  /**
   * `os.path.splitext` on a POSIX path: split at the last dot of the base name,
   * unless that dot is only preceded by dots in the base name (a hidden file).
   * The extension keeps its dot, and the two parts concatenate to the path.
   */
  function SplitExt(p: string): (parts: (string, string))
    ensures parts.0 + parts.1 == p
    ensures parts.1 == [] || IsExtension(parts.1)
  {
    var sep := LastIndexOf(p, '/');
    var dot := LastIndexOf(p, '.');
    if sep < dot && !AllDots(p[sep + 1..dot]) then
      ExtensionAfterLastDot(p, sep, dot);
      (p[..dot], p[dot..])
    else (p, [])
  }

  function Stem(filename: string): string { SplitExt(filename).0 }
  function Ext(filename: string): string { SplitExt(filename).1 }

  /** A base name without a slash that is not made of dots only. */
  predicate IsPlainStem(stem: string) {
    !AllDots(stem) && forall k :: 0 <= k < |stem| ==> stem[k] != '/'
  }

  /** `c` occurring at position `|p|` and nowhere after it is the last occurrence. */
  lemma LastIndexOfAt(p: string, c: char, q: string)
    requires forall k :: 0 <= k < |q| ==> q[k] != c
    ensures LastIndexOf(p + [c] + q, c) == |p|
  {
    var s := p + [c] + q;
    assert s[|p|] == c;
  }

  /** A plain name with an extension splits into exactly that name and that extension. */
  lemma SplitExtOfPlainName(stem: string, ext: string)
    requires IsPlainStem(stem) && IsExtension(ext)
    ensures SplitExt(stem + ext) == (stem, ext)
  {
    var p := stem + ext;
    assert p == stem + [ext[0]] + ext[1..];
    LastIndexOfAt(stem, '.', ext[1..]);
    assert forall k :: 0 <= k < |p| ==> p[k] != '/' by {
      forall k | 0 <= k < |p| ensures p[k] != '/' {
        if k < |stem| { assert p[k] == stem[k]; } else { assert p[k] == ext[k - |stem|]; }
      }
    }
    assert p[0..|stem|] == stem;
  }

  /** A name whose base name starts with its only dot, such as `.png`, has no extension. */
  lemma SplitExtOfDotFile(name: string)
    requires |name| >= 1 && name[0] == '.' && forall k :: 1 <= k < |name| ==> name[k] != '.' && name[k] != '/'
    ensures SplitExt(name) == (name, "")
  {
    LastIndexOfAt([], '.', name[1..]);
    assert name == [] + ['.'] + name[1..];
  }

  /**
   * The name of the label that belongs to an image of the source tree: the image
   * name with its extension, if any, replaced by `.txt`.
   */
  function SourceLabel(filename: string): (labelName: string)
    ensures EndsWith(labelName, ".txt")
    ensures labelName[..|labelName| - 4] + Ext(filename) == filename
  {
    Stem(filename) + ".txt"
  }

  /**
   * The suffix of copy `i`: empty for the first copy; for the others `_copy`
   * followed by decimal digits that read back as `i`.
   */
  function CopySuffix(i: nat): (suffix: string)
    ensures i == 0 <==> suffix == []
    ensures i > 0 ==> |suffix| > 5 && suffix[..5] == "_copy" && IsDigits(suffix[5..]) &&
                      DigitsValue(suffix[5..]) == i && suffix[5] != '0'
  {
    if i > 0 then
      DigitsRoundTrip(i);
      assert ("_copy" + NatToString(i))[5..] == NatToString(i);
      "_copy" + NatToString(i)
    else ""
  }

  /**
   * The destination name of image copy `i`: the first copy keeps the image's own
   * name; every copy keeps its extension and grows by exactly its suffix.
   */
  function ImageName(filename: string, i: nat): (name: string)
    ensures i == 0 ==> name == filename
    ensures EndsWith(name, Ext(filename))
    ensures |name| == |filename| + |CopySuffix(i)|
  {
    Stem(filename) + CopySuffix(i) + Ext(filename)
  }

  /** A copy suffix holds no dot and no slash. */
  lemma SuffixHasNoSeparator(i: nat)
    ensures forall k :: 0 <= k < |CopySuffix(i)| ==> CopySuffix(i)[k] != '.' && CopySuffix(i)[k] != '/'
  {
    var suffix := CopySuffix(i);
    forall k | 0 <= k < |suffix|
      ensures suffix[k] != '.' && suffix[k] != '/'
    {
      if k < 5 {
        assert suffix[k] == suffix[..5][k];
      } else {
        assert suffix[k] == suffix[5..][k - 5];
      }
    }
  }

  /**
   * Between a stem position `lo` and the start of the extension, a name made of a stem, a
   * suffix and an extension is not all dots when the stem's tail from `lo` is not.
   */
  lemma NotAllDotsWithin(stem: string, suf: string, ext: string, lo: int)
    requires 0 <= lo <= |stem| && !AllDots(stem[lo..])
    ensures !AllDots((stem + suf + ext)[lo..|stem| + |suf|])
  {
    var k :| 0 <= k < |stem| - lo && stem[lo..][k] != '.';
    assert (stem + suf + ext)[lo..|stem| + |suf|][k] == stem[lo + k];
  }

  /**
   * `splitext` of copy `i`'s name gives back the image's stem followed by the copy
   * suffix, and the image's extension: the suffix goes between stem and extension.
   */
  lemma ImageNameSplits(filename: string, i: nat)
    ensures SplitExt(ImageName(filename, i)) == (Stem(filename) + CopySuffix(i), Ext(filename))
  {
    var sep := LastIndexOf(filename, '/');
    var dot := LastIndexOf(filename, '.');
    if sep < dot && !AllDots(filename[sep + 1..dot]) {
      ImageNameSplitsAtDot(filename, i, sep, dot);
    } else {
      ImageNameNoSplit(filename, i, sep, dot);
    }
  }

  /** `splitext` decided from the positions of the last slash and the last dot. */
  lemma SplitExtByIndices(q: string, sep: int, dot: int)
    requires sep == LastIndexOf(q, '/') && dot == LastIndexOf(q, '.')
    ensures sep < dot && !AllDots(q[sep + 1..dot]) ==> SplitExt(q) == (q[..dot], q[dot..])
    ensures !(sep < dot && !AllDots(q[sep + 1..dot])) ==> SplitExt(q) == (q, [])
  { }

  /** Inserting a suffix without dots before an extension leaves the last dot at the extension. */
  lemma LastDotAtExtension(stem: string, suf: string, ext: string)
    requires IsExtension(ext)
    requires forall k :: 0 <= k < |suf| ==> suf[k] != '.'
    ensures LastIndexOf(stem + suf + ext, '.') == |stem| + |suf|
  {
    assert stem + suf + ext == (stem + suf) + ['.'] + ext[1..];
    LastIndexOfAt(stem + suf, '.', ext[1..]);
  }

  /** Neither a suffix without slashes nor an extension moves the last slash of a stem. */
  lemma LastSlashInStem(stem: string, suf: string, ext: string)
    requires IsExtension(ext)
    requires forall k :: 0 <= k < |suf| ==> suf[k] != '/'
    ensures LastIndexOf(stem + suf + ext, '/') == LastIndexOf(stem, '/')
    ensures LastIndexOf(stem + ext, '/') == LastIndexOf(stem, '/')
  {
    var tail := suf + ext;
    forall k | 0 <= k < |tail|
      ensures tail[k] != '/'
    {
      if k < |suf| {
        assert tail[k] == suf[k];
      } else {
        assert tail[k] == ext[k - |suf|];
      }
    }
    assert stem + suf + ext == stem + tail;
    LastIndexOfAppend(stem, tail, '/');
    LastIndexOfAppend(stem, ext, '/');
  }

  /**
   * A name made of a stem, a suffix and an extension splits before the extension
   * when its last dot starts the extension and what lies between its last slash and
   * that dot is not all dots.
   */
  lemma SplitExtOfSuffixed(stem: string, suf: string, ext: string, sep: int)
    requires IsExtension(ext)
    requires sep == LastIndexOf(stem + suf + ext, '/') && LastIndexOf(stem + suf + ext, '.') == |stem| + |suf|
    requires sep < |stem| + |suf| && !AllDots((stem + suf + ext)[sep + 1..|stem| + |suf|])
    ensures SplitExt(stem + suf + ext) == (stem + suf, ext)
  {
    var name := stem + suf + ext;
    var dot := |stem| + |suf|;
    SplitExtByIndices(name, sep, dot);
    assert name[..dot] == stem + suf && name[dot..] == ext;
  }

  /**
   * A suffix without dots and slashes, put between a stem and its extension, stays
   * with the stem.
   */
  lemma SplitWithSuffix(stem: string, suf: string, ext: string, sep: int)
    requires IsExtension(ext)
    requires forall k :: 0 <= k < |suf| ==> suf[k] != '.' && suf[k] != '/'
    requires sep == LastIndexOf(stem, '/')
    requires sep < |stem| && !AllDots(stem[sep + 1..])
    ensures SplitExt(stem + suf + ext) == (stem + suf, ext)
  {
    LastSlashInStem(stem, suf, ext);
    LastDotAtExtension(stem, suf, ext);
    NotAllDotsWithin(stem, suf, ext, sep + 1);
    SplitExtOfSuffixed(stem, suf, ext, sep);
  }

  /** The case of `ImageNameSplits` where the image name has an extension. */
  lemma ImageNameSplitsAtDot(p: string, i: nat, sep: int, dot: int)
    requires sep == LastIndexOf(p, '/') && dot == LastIndexOf(p, '.')
    requires sep < dot && !AllDots(p[sep + 1..dot])
    ensures SplitExt(ImageName(p, i)) == (Stem(p) + CopySuffix(i), Ext(p))
  {
    ExtensionAfterLastDot(p, sep, dot);
    SplitExtByIndices(p, sep, dot);
    var stem, ext := p[..dot], p[dot..];
    LastSlashInStem(stem, [], ext);
    assert stem + ext == p;
    assert stem[sep + 1..] == p[sep + 1..dot];
    SuffixHasNoSeparator(i);
    SplitWithSuffix(stem, CopySuffix(i), ext, sep);
    assert ImageName(p, i) == stem + CopySuffix(i) + ext;
  }

  /** The case of `ImageNameSplits` where the image name has no extension. */
  lemma ImageNameNoSplit(p: string, i: nat, sep: int, dot: int)
    requires sep == LastIndexOf(p, '/') && dot == LastIndexOf(p, '.')
    requires !(sep < dot && !AllDots(p[sep + 1..dot]))
    ensures SplitExt(ImageName(p, i)) == (Stem(p) + CopySuffix(i), Ext(p))
  {
    var suf := CopySuffix(i);
    SuffixHasNoSeparator(i);
    SplitExtByIndices(p, sep, dot);
    var name := p + suf;
    assert ImageName(p, i) == name;
    LastIndexOfAppend(p, suf, '/');
    LastIndexOfAppend(p, suf, '.');
    if sep < dot {
      assert name[sep + 1..dot] == p[sep + 1..dot];
    }
    SplitExtByIndices(name, sep, dot);
  }

  /**
   * The destination name of label copy `i`: a `.txt` name, and for the first copy
   * the source label's own name.
   */
  function LabelName(filename: string, i: nat): (name: string)
    ensures EndsWith(name, ".txt")
    ensures i == 0 ==> name == SourceLabel(filename)
    ensures name[..|name| - 4] + Ext(filename) == ImageName(filename, i)
  {
    Stem(filename) + CopySuffix(i) + ".txt"
  }

  /** Different copy indices give different suffixes. */
  lemma CopySuffixInjective(i: nat, j: nat)
    ensures CopySuffix(i) == CopySuffix(j) ==> i == j
  {
    if CopySuffix(i) == CopySuffix(j) && i > 0 && j > 0 {
      assert NatToString(i) == CopySuffix(i)[5..];
      NatToStringInjective(i, j);
    }
  }

  /** `a + x + b == a + y + b` forces `x == y`. */
  lemma CancelAround(a: string, x: string, y: string, b: string)
    requires a + x + b == a + y + b
    ensures x == y
  {
    var s := a + x + b;
    assert |x| == |y|;
    assert x == s[|a|..|a| + |x|];
    assert y == (a + y + b)[|a|..|a| + |y|];
  }

  /** The copies of one row never share a destination name, for images and for labels. */
  lemma CopyNamesDistinct(filename: string, i: nat, j: nat)
    requires i != j
    ensures ImageName(filename, i) != ImageName(filename, j)
    ensures LabelName(filename, i) != LabelName(filename, j)
  {
    CopySuffixInjective(i, j);
    if ImageName(filename, i) == ImageName(filename, j) {
      CancelAround(Stem(filename), CopySuffix(i), CopySuffix(j), Ext(filename));
    }
    if LabelName(filename, i) == LabelName(filename, j) {
      CancelAround(Stem(filename), CopySuffix(i), CopySuffix(j), ".txt");
    }
  }

  /**
   * Names are only unique within a row: the second copy of `a.jpg` and the first
   * copy of a row named `a_copy1.jpg` have the same destination.
   */
  lemma CopyNamesMayCollideAcrossRows(stem: string, ext: string)
    requires IsPlainStem(stem) && IsExtension(ext)
    ensures ImageName(stem + ext, 1) == ImageName(stem + "_copy1" + ext, 0)
  {
    SplitExtOfPlainName(stem, ext);
    CopyStemIsPlain(stem);
    SplitExtOfPlainName(stem + "_copy1", ext);
    assert NatToString(1) == "1";
    assert CopySuffix(1) == "_copy1";
    assert ImageName(stem + ext, 1) == stem + "_copy1" + ext;
    assert ImageName(stem + "_copy1" + ext, 0) == stem + "_copy1" + ext;
  }

  /** Appending `_copy1` to a plain stem gives a plain stem. */
  lemma CopyStemIsPlain(stem: string)
    requires IsPlainStem(stem)
    ensures IsPlainStem(stem + "_copy1")
  {
    var stem1 := stem + "_copy1";
    var k :| 0 <= k < |stem| && stem[k] != '.';
    assert stem1[k] == stem[k];
    assert forall j :: 0 <= j < |stem1| ==> stem1[j] == if j < |stem| then stem[j] else "_copy1"[j - |stem|];
  }

  /** What exists in the source dataset. */
  datatype SourceTree = SourceTree(imageDirExists: bool, images: set<string>, labels: set<string>)

  /** One `shutil.copy2(src, dst)`. */
  datatype Copy = Copy(src: string, dst: string)

  /**
   * The image copies made for one row: none when the source image is missing,
   * otherwise `RepeatTimes(weight)` copies of that image to pairwise different names.
   */
  function ImageCopies(row: WeightRow, tree: SourceTree): (copies: seq<Copy>)
    ensures row.filename !in tree.images ==> copies == []
    ensures row.filename in tree.images ==> |copies| == RepeatTimes(row.weight)
    ensures forall k :: 0 <= k < |copies| ==> copies[k].src == row.filename
    ensures DistinctDestinations(copies)
  {
    var f := row.filename;
    if f in tree.images then
      var copies := seq(RepeatTimes(row.weight), i requires 0 <= i => Copy(f, ImageName(f, i)));
      assert DistinctDestinations(copies) by {
        forall i, j | 0 <= i < j < |copies| ensures copies[i].dst != copies[j].dst {
          CopyNamesDistinct(f, i, j);
        }
      }
      copies
    else []
  }

  /**
   * The label copies made for one row: `RepeatTimes(weight)` copies of the source
   * label to pairwise different names when both the image and its label exist, and
   * none otherwise.
   */
  function LabelCopies(row: WeightRow, tree: SourceTree): (copies: seq<Copy>)
    ensures row.filename !in tree.images || SourceLabel(row.filename) !in tree.labels ==> copies == []
    ensures row.filename in tree.images && SourceLabel(row.filename) in tree.labels ==>
              |copies| == RepeatTimes(row.weight)
    ensures forall k :: 0 <= k < |copies| ==> copies[k].src == SourceLabel(row.filename)
    ensures DistinctDestinations(copies)
  {
    var f := row.filename;
    if f in tree.images && SourceLabel(f) in tree.labels then
      var copies := seq(RepeatTimes(row.weight), i requires 0 <= i => Copy(SourceLabel(f), LabelName(f, i)));
      assert DistinctDestinations(copies) by {
        forall i, j | 0 <= i < j < |copies| ensures copies[i].dst != copies[j].dst {
          CopyNamesDistinct(f, i, j);
        }
      }
      copies
    else []
  }

  /** Copy `k` of a row writes the row's image to `ImageName(f, k)` and its label to `LabelName(f, k)`. */
  lemma CopyDestinations(row: WeightRow, tree: SourceTree, k: nat)
    ensures k < |ImageCopies(row, tree)| ==>
              ImageCopies(row, tree)[k] == Copy(row.filename, ImageName(row.filename, k))
    ensures k < |LabelCopies(row, tree)| ==>
              LabelCopies(row, tree)[k] == Copy(SourceLabel(row.filename), LabelName(row.filename, k))
  {
  }

  /** All image copies of the table, in row order; each copies an image that exists. */
  function PlanImages(rows: seq<WeightRow>, tree: SourceTree): (plan: seq<Copy>)
    ensures forall k :: 0 <= k < |plan| ==> plan[k].src in tree.images
  {
    if rows == [] then []
    else
      var init := PlanImages(rows[..|rows| - 1], tree);
      var last := ImageCopies(rows[|rows| - 1], tree);
      assert forall k :: |init| <= k < |init| + |last| ==> (init + last)[k] == last[k - |init|];
      init + last
  }

  /**
   * All label copies of the table, in row order; each copies a label that exists,
   * and there are never more label copies than image copies.
   */
  function PlanLabels(rows: seq<WeightRow>, tree: SourceTree): (plan: seq<Copy>)
    ensures forall k :: 0 <= k < |plan| ==> plan[k].src in tree.labels
    ensures |plan| <= |PlanImages(rows, tree)|
  {
    if rows == [] then []
    else
      var init := PlanLabels(rows[..|rows| - 1], tree);
      var last := LabelCopies(rows[|rows| - 1], tree);
      assert |last| <= |ImageCopies(rows[|rows| - 1], tree)|;
      assert |PlanImages(rows, tree)| ==
             |PlanImages(rows[..|rows| - 1], tree)| + |ImageCopies(rows[|rows| - 1], tree)|;
      assert forall k :: |init| <= k < |init| + |last| ==> (init + last)[k] == last[k - |init|];
      init + last
  }

  /** A row adds `repeat_times` copies when its image exists and none otherwise. */
  lemma PlanStep(rows: seq<WeightRow>, row: WeightRow, tree: SourceTree)
    ensures row.filename !in tree.images ==>
              PlanImages(rows + [row], tree) == PlanImages(rows, tree) &&
              PlanLabels(rows + [row], tree) == PlanLabels(rows, tree)
    ensures row.filename in tree.images ==>
              |PlanImages(rows + [row], tree)| == |PlanImages(rows, tree)| + RepeatTimes(row.weight)
    ensures |PlanLabels(rows + [row], tree)| - |PlanLabels(rows, tree)| <=
            |PlanImages(rows + [row], tree)| - |PlanImages(rows, tree)|
  {
    assert (rows + [row])[..|rows|] == rows;
  }

  /**
   * The directory contents after the copies, in order: a later copy overwrites an
   * earlier one, so the last copy's destination holds its source.
   */
  function Applied(copies: seq<Copy>): (files: map<string, string>)
    ensures copies != [] ==> copies[|copies| - 1].dst in files && files[copies[|copies| - 1].dst] == copies[|copies| - 1].src
  {
    if copies == [] then map[]
    else Applied(copies[..|copies| - 1])[copies[|copies| - 1].dst := copies[|copies| - 1].src]
  }

  /**
   * Overwriting: a destination holds the source of the last copy written to it.
   */
  lemma {:induction false} AppliedValue(copies: seq<Copy>, k: nat)
    requires k < |copies|
    requires forall j :: k < j < |copies| ==> copies[j].dst != copies[k].dst
    ensures copies[k].dst in Applied(copies) && Applied(copies)[copies[k].dst] == copies[k].src
  {
    if k < |copies| - 1 {
      AppliedValue(copies[..|copies| - 1], k);
    }
  }

  /** The files present after the copies are exactly their destinations. */
  lemma {:induction false} AppliedKeys(copies: seq<Copy>)
    ensures Applied(copies).Keys == set c | c in copies :: c.dst
  {
    if copies != [] {
      var init := copies[..|copies| - 1];
      AppliedKeys(init);
      assert copies == init + [copies[|copies| - 1]];
    }
  }

  /** Copies to pairwise different destinations. */
  predicate DistinctDestinations(copies: seq<Copy>) {
    forall i, j :: 0 <= i < j < |copies| ==> copies[i].dst != copies[j].dst
  }

  /** Copies to pairwise different destinations leave one file per copy. */
  lemma {:induction false} AppliedSize(copies: seq<Copy>)
    requires DistinctDestinations(copies)
    ensures |Applied(copies)| == |copies|
  {
    if copies != [] {
      var init := copies[..|copies| - 1];
      var last := copies[|copies| - 1];
      AppliedSize(init);
      AppliedKeys(init);
      assert last.dst !in Applied(init).Keys by {
        forall c | c in init ensures c.dst != last.dst {
          var i :| 0 <= i < |init| && init[i] == c;
          assert copies[i] == c;
        }
      }
    }
  }

  /** One row whose image exists leaves exactly `repeat_times` image files, and as many label files when its label exists. */
  lemma RowFileCount(row: WeightRow, tree: SourceTree)
    requires row.filename in tree.images
    ensures |Applied(ImageCopies(row, tree))| == RepeatTimes(row.weight)
    ensures SourceLabel(row.filename) in tree.labels ==> |Applied(LabelCopies(row, tree))| == RepeatTimes(row.weight)
    ensures SourceLabel(row.filename) !in tree.labels ==> LabelCopies(row, tree) == []
  {
    AppliedSize(ImageCopies(row, tree));
    AppliedSize(LabelCopies(row, tree));
  }

  /**
   * The output dataset: the files of its `images/train` and `labels/train`
   * directories, each mapped to the source file it was copied from.
   */
  class OutputTree {
    var images: map<string, string>
    var labels: map<string, string>

    constructor (images0: map<string, string>, labels0: map<string, string>)
      ensures images == images0 && labels == labels0
    {
      images := images0;
      labels := labels0;
    }

    /** `shutil.rmtree` followed by `os.makedirs` of both directories. */
    method Reset()
      modifies this
      ensures images == map[] && labels == map[]
    {
      images := map[];
      labels := map[];
    }

    /** `shutil.copy2` into the image directory. */
    method CopyImage(src: string, dst: string)
      modifies this
      ensures images == old(images)[dst := src] && labels == old(labels)
    {
      images := images[dst := src];
    }

    /** `shutil.copy2` into the label directory. */
    method CopyLabel(src: string, dst: string)
      modifies this
      ensures labels == old(labels)[dst := src] && images == old(images)
    {
      labels := labels[dst := src];
    }
  }

  /** Applying one more copy of `b` updates the destination it names. */
  lemma AppliedExtend(a: seq<Copy>, b: seq<Copy>, i: nat)
    requires i < |b|
    ensures Applied(a + b[..i + 1]) == Applied(a + b[..i])[b[i].dst := b[i].src]
  {
    var s := a + b[..i + 1];
    assert s[..|s| - 1] == a + b[..i];
    assert s[|s| - 1] == b[i];
  }

  /** Image copy `i` of a row whose image exists, as the loop body issues it. */
  lemma ImageCopyStep(row: WeightRow, tree: SourceTree, done: seq<Copy>, i: nat)
    requires row.filename in tree.images && i < RepeatTimes(row.weight)
    ensures var f := row.filename;
            Applied(done + ImageCopies(row, tree)[..i + 1]) ==
            Applied(done + ImageCopies(row, tree)[..i])[Stem(f) + CopySuffix(i) + Ext(f) := f]
  {
    AppliedExtend(done, ImageCopies(row, tree), i);
  }

  /** Label copy `i` of a row whose image and label exist, as the loop body issues it. */
  lemma LabelCopyStep(row: WeightRow, tree: SourceTree, done: seq<Copy>, i: nat)
    requires row.filename in tree.images && SourceLabel(row.filename) in tree.labels
    requires i < RepeatTimes(row.weight)
    ensures var f := row.filename;
            Applied(done + LabelCopies(row, tree)[..i + 1]) ==
            Applied(done + LabelCopies(row, tree)[..i])[Stem(f) + CopySuffix(i) + ".txt" := SourceLabel(f)]
  {
    AppliedExtend(done, LabelCopies(row, tree), i);
  }

  /** One pass of the copy loop: image copy `i`, and label copy `i` when the label exists. */
  method CopyOnce(row: WeightRow, tree: SourceTree, out: OutputTree, stem: string, ext: string, i: nat,
                  ghost doneImages: seq<Copy>, ghost doneLabels: seq<Copy>)
    requires row.filename in tree.images && i < RepeatTimes(row.weight)
    requires stem == Stem(row.filename) && ext == Ext(row.filename)
    requires out.images == Applied(doneImages + ImageCopies(row, tree)[..i])
    requires SourceLabel(row.filename) in tree.labels ==>
               out.labels == Applied(doneLabels + LabelCopies(row, tree)[..i])
    requires SourceLabel(row.filename) !in tree.labels ==> out.labels == Applied(doneLabels)
    modifies out
    ensures out.images == Applied(doneImages + ImageCopies(row, tree)[..i + 1])
    ensures SourceLabel(row.filename) in tree.labels ==>
              out.labels == Applied(doneLabels + LabelCopies(row, tree)[..i + 1])
    ensures SourceLabel(row.filename) !in tree.labels ==> out.labels == Applied(doneLabels)
  {
    var suffix := if i > 0 then "_copy" + NatToString(i) else "";
    assert suffix == CopySuffix(i);
    out.CopyImage(row.filename, stem + suffix + ext);
    ImageCopyStep(row, tree, doneImages, i);
    var srcLabel := SourceLabel(row.filename);
    if srcLabel in tree.labels {
      out.CopyLabel(srcLabel, stem + suffix + ".txt");
      LabelCopyStep(row, tree, doneLabels, i);
    }
  }

  /** How a run ends: stopped before touching the output, or done with the number of image copies made. */
  datatype RunResult = Aborted | Done(totalFiles: nat)

  /**
   * The body of the row loop: compute `repeat_times`, skip a row whose source image
   * is missing, and otherwise copy the image (and the label, when it exists) once
   * per copy index, counting every image copy.
   */
  method CopyRow(row: WeightRow, tree: SourceTree, out: OutputTree, totalFiles: nat,
                 ghost doneImages: seq<Copy>, ghost doneLabels: seq<Copy>)
    returns (total: nat)
    requires out.images == Applied(doneImages) && out.labels == Applied(doneLabels)
    modifies out
    ensures out.images == Applied(doneImages + ImageCopies(row, tree))
    ensures out.labels == Applied(doneLabels + LabelCopies(row, tree))
    ensures total == totalFiles + |ImageCopies(row, tree)|
  {
    total := totalFiles;
    var filename := row.filename;
    var repeatTimes := RoundHalfEven(row.weight);
    if repeatTimes < 1 { repeatTimes := 1; }
    var srcLabel := SourceLabel(filename);
    if filename !in tree.images {
      assert doneImages + [] == doneImages && doneLabels + [] == doneLabels;
      return;
    }
    var stem, ext := Stem(filename), Ext(filename);
    ghost var rowImages := ImageCopies(row, tree);
    ghost var rowLabels := LabelCopies(row, tree);
    assert doneImages + rowImages[..0] == doneImages && doneLabels + rowLabels[..0] == doneLabels;
    for i := 0 to repeatTimes
      invariant out.images == Applied(doneImages + rowImages[..i])
      invariant srcLabel in tree.labels ==> out.labels == Applied(doneLabels + rowLabels[..i])
      invariant srcLabel !in tree.labels ==> out.labels == Applied(doneLabels)
      invariant total == totalFiles + i
    {
      CopyOnce(row, tree, out, stem, ext, i, doneImages, doneLabels);
      total := total + 1;
    }
    assert rowImages[..repeatTimes] == rowImages;
    if srcLabel in tree.labels {
      assert rowLabels[..repeatTimes] == rowLabels;
    } else {
      assert doneLabels + rowLabels == doneLabels;
    }
  }

  /**
   * create_weighted_dataset. A missing weights file or source image directory stops
   * the run before the output tree is touched. Otherwise the output tree is cleared
   * and rebuilt, so what it holds afterwards depends only on the weights table and
   * the source tree, and `total_files` counts the image copies.
   */
  method CreateWeightedDataset(weightsFileExists: bool, tree: SourceTree, rows: seq<WeightRow>, out: OutputTree)
    returns (result: RunResult)
    modifies out
    ensures !weightsFileExists || !tree.imageDirExists ==>
              result == Aborted && out.images == old(out.images) && out.labels == old(out.labels)
    ensures weightsFileExists && tree.imageDirExists ==>
              result == Done(|PlanImages(rows, tree)|) &&
              out.images == Applied(PlanImages(rows, tree)) &&
              out.labels == Applied(PlanLabels(rows, tree))
  {
    if !weightsFileExists || !tree.imageDirExists {
      return Aborted;
    }
    out.Reset();
    var totalFiles := 0;
    for r := 0 to |rows|
      invariant out.images == Applied(PlanImages(rows[..r], tree))
      invariant out.labels == Applied(PlanLabels(rows[..r], tree))
      invariant totalFiles == |PlanImages(rows[..r], tree)|
    {
      assert rows[..r + 1][..r] == rows[..r];
      totalFiles := CopyRow(rows[r], tree, out, totalFiles, PlanImages(rows[..r], tree), PlanLabels(rows[..r], tree));
    }
    assert rows[..|rows|] == rows;
    return Done(totalFiles);
  }
}
