/** What processing a label file does to the image: every accepted line
    blacks out its box, in place, in the order of the file. The pixel-level
    meaning is given by `Redacted`; `RedactLines` is the loop that does it
    to an image buffer. */
module Redaction {
  import opened Options
  import opened Tokens
  import opened Numbers
  import opened Labels
  import opened Geometry

  newtype Byte = x: int | 0 <= x < 256

  /** One pixel of a colour image as OpenCV loads it: blue, green, red. */
  datatype Pixel = Pixel(blue: Byte, green: Byte, red: Byte)

  /** The value `(0, 0, 0)` the redaction writes. */
  const Black := Pixel(0, 0, 0)

  /** The box a label line asks to black out, or None for a line that is skipped. */
  function LineRegion(line: string, height: nat, width: nat): Option<Box> {
    match ParseLine(line)
    case Some(d) => Some(BoxOf(d, height, width))
    case None => None
  }

  /** The boxes of the lines of a label file, position by position; None
      stands for a skipped line. */
  function Regions(lines: seq<string>, height: nat, width: nat): (rs: seq<Option<Box>>)
    ensures |rs| == |lines|
    ensures forall i :: 0 <= i < |lines| ==> rs[i] == LineRegion(lines[i], height, width)
    decreases |lines|
  {
    if lines == [] then []
    else Regions(lines[..|lines| - 1], height, width) + [LineRegion(lines[|lines| - 1], height, width)]
  }

  /** The region is present and reaches the pixel at (row, col). */
  predicate Blacks(region: Option<Box>, height: nat, width: nat, row: int, col: int) {
    region.Some? && InRegion(region.value, height, width, row, col)
  }

  /** The pixel at (row, col), which was `p`, after the regions have been
      blacked out one after the other. */
  function Redacted(p: Pixel, regions: seq<Option<Box>>, height: nat, width: nat, row: int, col: int): Pixel
    decreases |regions|
  {
    if regions == [] then p
    else if Blacks(regions[|regions| - 1], height, width, row, col) then Black
    else Redacted(p, regions[..|regions| - 1], height, width, row, col)
  }

  /** Some region blacks out the pixel at (row, col). */
  predicate Covered(regions: seq<Option<Box>>, height: nat, width: nat, row: int, col: int) {
    exists i :: 0 <= i < |regions| && Blacks(regions[i], height, width, row, col)
  }

  /** Applying the regions in sequence is the same as blacking out their
      union: a pixel ends black when some region covers it, and keeps its
      value otherwise. */
  lemma {:induction false} RedactedIsUnion(p: Pixel, regions: seq<Option<Box>>, height: nat, width: nat, row: int, col: int)
    ensures Redacted(p, regions, height, width, row, col) ==
            if Covered(regions, height, width, row, col) then Black else p
    decreases |regions|
  {
    if regions != [] {
      var init := regions[..|regions| - 1];
      RedactedIsUnion(p, init, height, width, row, col);
      if Covered(init, height, width, row, col) {
        var i :| 0 <= i < |init| && Blacks(init[i], height, width, row, col);
        assert regions[i] == init[i];
      }
      if Covered(regions, height, width, row, col) && !Blacks(regions[|regions| - 1], height, width, row, col) {
        var i :| 0 <= i < |regions| && Blacks(regions[i], height, width, row, col);
        assert init[i] == regions[i];
      }
    }
  }

  /** The order of the lines in the label file does not matter. */
  lemma RedactionIgnoresOrder(p: Pixel, a: seq<string>, b: seq<string>, height: nat, width: nat, row: int, col: int)
    requires multiset(a) == multiset(b)
    ensures Redacted(p, Regions(a, height, width), height, width, row, col) ==
            Redacted(p, Regions(b, height, width), height, width, row, col)
  {
    var ra, rb := Regions(a, height, width), Regions(b, height, width);
    RedactedIsUnion(p, ra, height, width, row, col);
    RedactedIsUnion(p, rb, height, width, row, col);
    if Covered(ra, height, width, row, col) {
      CoveredByPermutation(a, b, height, width, row, col);
    }
    if Covered(rb, height, width, row, col) {
      CoveredByPermutation(b, a, height, width, row, col);
    }
  }

  lemma CoveredByPermutation(a: seq<string>, b: seq<string>, height: nat, width: nat, row: int, col: int)
    requires multiset(a) == multiset(b)
    requires Covered(Regions(a, height, width), height, width, row, col)
    ensures Covered(Regions(b, height, width), height, width, row, col)
  {
    var ra, rb := Regions(a, height, width), Regions(b, height, width);
    var i :| 0 <= i < |ra| && Blacks(ra[i], height, width, row, col);
    assert a[i] in multiset(b);
    var j :| 0 <= j < |b| && b[j] == a[i];
    assert rb[j] == ra[i];
  }

  /** Processing the same label lines a second time changes nothing. */
  lemma RedactionIdempotent(p: Pixel, regions: seq<Option<Box>>, height: nat, width: nat, row: int, col: int)
    ensures var once := Redacted(p, regions, height, width, row, col);
            Redacted(once, regions, height, width, row, col) == once
  {
    RedactedIsUnion(p, regions, height, width, row, col);
    RedactedIsUnion(Redacted(p, regions, height, width, row, col), regions, height, width, row, col);
  }

  /** A skipped line has no effect: the lines around it are processed as if
      it were not there. */
  lemma SkippedLineHasNoEffect(p: Pixel, before: seq<string>, bad: string, after: seq<string>,
                               height: nat, width: nat, row: int, col: int)
    requires LineRegion(bad, height, width) == None
    ensures Redacted(p, Regions(before + [bad] + after, height, width), height, width, row, col) ==
            Redacted(p, Regions(before + after, height, width), height, width, row, col)
  {
    var ra, rb := Regions(before, height, width), Regions(after, height, width);
    RegionsOfConcat(before + [bad], after, height, width);
    RegionsOfConcat(before, [bad], height, width);
    RegionsOfConcat(before, after, height, width);
    SkippedRegionHasNoEffect(p, ra, rb, height, width, row, col);
  }

  lemma {:induction false} RegionsOfConcat(a: seq<string>, b: seq<string>, height: nat, width: nat)
    ensures Regions(a + b, height, width) == Regions(a, height, width) + Regions(b, height, width)
    decreases |b|
  {
    if b == [] {
      assert a + b == a;
    } else {
      var last := b[|b| - 1];
      assert (a + b)[..|a + b| - 1] == a + b[..|b| - 1];
      assert (a + b)[|a + b| - 1] == last;
      RegionsOfConcat(a, b[..|b| - 1], height, width);
    }
  }

  lemma SkippedRegionHasNoEffect(p: Pixel, a: seq<Option<Box>>, b: seq<Option<Box>>,
                                 height: nat, width: nat, row: int, col: int)
    ensures Redacted(p, a + [None] + b, height, width, row, col) == Redacted(p, a + b, height, width, row, col)
  {
    var l, r := a + [None] + b, a + b;
    RedactedIsUnion(p, l, height, width, row, col);
    RedactedIsUnion(p, r, height, width, row, col);
    if Covered(l, height, width, row, col) {
      var i :| 0 <= i < |l| && Blacks(l[i], height, width, row, col);
      if i < |a| {
        assert r[i] == l[i];
      } else {
        assert r[i - 1] == l[i];
      }
    }
    if Covered(r, height, width, row, col) {
      var i :| 0 <= i < |r| && Blacks(r[i], height, width, row, col);
      if i < |a| {
        assert l[i] == r[i];
      } else {
        assert l[i + 1] == r[i];
      }
    }
  }

  /** A label file whose lines are all skipped (an empty file included)
      leaves every pixel as it was. */
  lemma NothingAcceptedChangesNothing(p: Pixel, lines: seq<string>, height: nat, width: nat, row: int, col: int)
    requires forall i :: 0 <= i < |lines| ==> LineRegion(lines[i], height, width) == None
    ensures Redacted(p, Regions(lines, height, width), height, width, row, col) == p
  {
    RedactedIsUnion(p, Regions(lines, height, width), height, width, row, col);
  }

  /** The class id, the first token, never decides which pixels are blacked
      out: any two numeric class ids give the same box. */
  lemma {:induction false} ClassIdIgnored(classA: string, classB: string, rest: seq<string>, height: nat, width: nat)
    requires IsWord(classA) && IsWord(classB)
    requires ParseNumber(classA).Some? && ParseNumber(classB).Some?
    requires |rest| == 4 && forall i :: 0 <= i < 4 ==> IsWord(rest[i])
    ensures LineRegion(Unwords([classA] + rest), height, width) ==
            LineRegion(Unwords([classB] + rest), height, width)
  {
    var a, b := [classA] + rest, [classB] + rest;
    var lineA, lineB := Unwords(a), Unwords(b);
    assert Split(lineA) == a && Split(lineB) == b by {
      SplitUnwords(a);
      SplitUnwords(b);
    }
    assert forall i :: 1 <= i < 5 ==> a[i] == b[i];
    RegionOfLinesDifferingInClass(lineA, lineB, height, width);
  }

  /** Two lines whose tokens differ at most in a numeric class id black out
      the same region. */
  lemma {:induction false} RegionOfLinesDifferingInClass(lineA: string, lineB: string, height: nat, width: nat)
    requires |Split(lineA)| == 5 && |Split(lineB)| == 5
    requires forall i :: 1 <= i < 5 ==> Split(lineA)[i] == Split(lineB)[i]
    requires ParseNumber(Split(lineA)[0]).Some? && ParseNumber(Split(lineB)[0]).Some?
    ensures LineRegion(lineA, height, width) == LineRegion(lineB, height, width)
  {
    ParseLinesDifferingInClass(lineA, lineB);
    if ParseLine(lineA).Some? {
      var da, db := ParseLine(lineA).value, ParseLine(lineB).value;
      BoxIgnoresClass(da, db.classId, height, width);
      assert db == da.(classId := db.classId);
    }
  }

  /** `image[y1:y2, x1:x2] = (0, 0, 0)`: blacks out, in place, the pixels the
      slice reaches and leaves all others as they were. */
  method FillSlice(image: array2<Pixel>, y1: int, y2: int, x1: int, x2: int)
    modifies image
    ensures forall row, col :: 0 <= row < image.Length0 && 0 <= col < image.Length1 ==>
              image[row, col] == if InRegion(Box(x1, y1, x2, y2), image.Length0, image.Length1, row, col)
                                 then Black else old(image[row, col])
  {
    forall row, col | 0 <= row < image.Length0 && 0 <= col < image.Length1 &&
                      InRegion(Box(x1, y1, x2, y2), image.Length0, image.Length1, row, col) {
      image[row, col] := Black;
    }
  }

  /** The body of the loop for one label line: unpack it into five numbers,
      scale the centre and size to pixels, compute the corners and black out
      the slice. A line that does not unpack is skipped, leaving the image as
      it was. */
  method RedactLine(image: array2<Pixel>, line: string)
    modifies image
    ensures forall row, col :: 0 <= row < image.Length0 && 0 <= col < image.Length1 ==>
              image[row, col] == if Blacks(LineRegion(line, image.Length0, image.Length1), image.Length0, image.Length1, row, col)
                                 then Black else old(image[row, col])
  {
    var rows, cols := image.Length0, image.Length1;
    var detection := ParseLine(line);
    if detection.None? {
      assert LineRegion(line, rows, cols) == None;
    } else {
      var b := BoxOf(detection.value, rows, cols);
      FillSlice(image, b.y1, b.y2, b.x1, b.x2);
    }
  }

  /** The loop over the lines of a label file: each line is handled by
      `RedactLine` in file order, a skipped line not stopping the loop.
      Afterwards every pixel is as `Redacted` describes for the boxes of the
      lines, which `RedactedIsUnion` shows to be black where some accepted
      line's box covers it and unchanged elsewhere. */
  method RedactLines(image: array2<Pixel>, lines: seq<string>)
    modifies image
    ensures forall row, col :: 0 <= row < image.Length0 && 0 <= col < image.Length1 ==>
              image[row, col] == Redacted(old(image[row, col]), Regions(lines, image.Length0, image.Length1),
                                          image.Length0, image.Length1, row, col)
  {
    var rows, cols := image.Length0, image.Length1;
    var i := 0;
    while i < |lines|
      invariant 0 <= i <= |lines|
      invariant forall row, col :: 0 <= row < rows && 0 <= col < cols ==>
                  image[row, col] == Redacted(old(image[row, col]), Regions(lines[..i], rows, cols), rows, cols, row, col)
    {
      RedactLine(image, lines[i]);
      assert lines[..i + 1][..i] == lines[..i];
      i := i + 1;
    }
    assert lines[..|lines|] == lines;
  }
}
