/**
 * The mask generator: `prepare_df` builds the record table from the
 * annotation document, and `create_images` walks it, pairing each region's
 * coordinates into a polygon and naming the PNG mask written for it.
 *
 * Reading the JSON file, probing the source image's size, drawing the
 * polygon and saving the file are I/O; `CreateImages` returns, per record,
 * the source image it would open, the polygon it would fill and the file
 * name it would save under.
 */
module Masks {
  import opened Counting
  import opened Text
  import opened Annotations

  const OutFileType: string := ".png"

  /** `zip(xs, ys)`: pairs up to the shorter of the two lists. */
  function Zip(xs: seq<int>, ys: seq<int>): (coords: seq<(int, int)>)
    ensures |coords| == if |xs| <= |ys| then |xs| else |ys|
  {
    if xs == [] || ys == [] then [] else [(xs[0], ys[0])] + Zip(xs[1..], ys[1..])
  }

  /** Point i of the polygon is (x[i], y[i]). */
  lemma {:induction false} ZipAt(xs: seq<int>, ys: seq<int>)
    ensures forall i :: 0 <= i < |Zip(xs, ys)| ==> Zip(xs, ys)[i] == (xs[i], ys[i])
  {
    if xs != [] && ys != [] {
      ZipAt(xs[1..], ys[1..]);
    }
  }

  /** The x and the y coordinates of a polygon, as two lists. */
  function Unzip(coords: seq<(int, int)>): (xy: (seq<int>, seq<int>))
  {
    (seq(|coords|, i requires 0 <= i < |coords| => coords[i].0),
     seq(|coords|, i requires 0 <= i < |coords| => coords[i].1))
  }

  /** Zipping keeps the common prefix of the two coordinate lists and nothing else. */
  lemma UnzipZip(xs: seq<int>, ys: seq<int>)
    ensures var m := if |xs| <= |ys| then |xs| else |ys|;
            Unzip(Zip(xs, ys)) == (xs[..m], ys[..m])
  {
    var m := if |xs| <= |ys| then |xs| else |ys|;
    var coords := Zip(xs, ys);
    ZipAt(xs, ys);
    assert Unzip(coords).0 == xs[..m];
    assert Unzip(coords).1 == ys[..m];
  }

  /** Every polygon is the zip of its own coordinate lists. */
  lemma ZipUnzip(coords: seq<(int, int)>)
    ensures Zip(Unzip(coords).0, Unzip(coords).1) == coords
  {
    ZipAt(Unzip(coords).0, Unzip(coords).1);
  }

  /**
   * The mask file name: the non-empty segments of
   * [stem, type, count + ".png"] joined by '_'.
   */
  function MaskName(stem: string, regionType: string, count: string): string
  {
    Join(NonEmpty([stem, regionType, count + OutFileType]), "_")
  }

  lemma NonEmptyCons(p: string, rest: seq<string>)
    ensures NonEmpty([p] + rest) == (if p == "" then [] else [p]) + NonEmpty(rest)
  {
    assert ([p] + rest)[1..] == rest;
  }

  /** An empty stem or type leaves no segment and no '_' behind. */
  lemma MaskNameShape(stem: string, regionType: string, count: string)
    ensures MaskName(stem, regionType, count)
            == (if stem == "" then "" else stem + "_")
               + (if regionType == "" then "" else regionType + "_")
               + count + OutFileType
  {
    var last := count + OutFileType;
    assert last != "" by {
      assert |last| >= |OutFileType|;
    }
    var front := (if stem == "" then [] else [stem]) + (if regionType == "" then [] else [regionType]);
    assert NonEmpty([stem, regionType, last]) == front + [last] by {
      assert [stem, regionType, last] == [stem] + ([regionType] + [last]);
      NonEmptyCons(stem, [regionType, last]);
      NonEmptyCons(regionType, [last]);
      NonEmptyCons(last, []);
    }
    JoinSnoc(front, last, "_");
    if stem != "" && regionType != "" {
      assert front == [stem] + [regionType];
      JoinSnoc([stem], regionType, "_");
    }
  }

  /** A mask name always ends in ".png", and never in "_.png" when the count is a decimal number. */
  lemma MaskNameSuffix(stem: string, regionType: string, count: string)
    requires IsDecimal(count)
    ensures EndsWith(MaskName(stem, regionType, count), OutFileType)
    ensures !EndsWith(MaskName(stem, regionType, count), "_" + OutFileType)
  {
    var name := MaskName(stem, regionType, count);
    MaskNameShape(stem, regionType, count);
    var prefix := (if stem == "" then "" else stem + "_") + (if regionType == "" then "" else regionType + "_");
    assert name == prefix + count + OutFileType;
    assert name[|name| - |OutFileType|..] == OutFileType;
    assert name[|name| - 5] == count[|count| - 1];
  }

  /** Within one (stem, type) group the name determines the count. */
  lemma MaskNameInjective(stem: string, regionType: string, c1: string, c2: string)
    requires MaskName(stem, regionType, c1) == MaskName(stem, regionType, c2)
    ensures c1 == c2
  {
    MaskNameShape(stem, regionType, c1);
    MaskNameShape(stem, regionType, c2);
    var prefix := (if stem == "" then "" else stem + "_") + (if regionType == "" then "" else regionType + "_");
    var n1, n2 := prefix + c1 + OutFileType, prefix + c2 + OutFileType;
    assert |c1| == |c2|;
    assert c1 == n1[|prefix|..|prefix| + |c1|];
    assert c2 == n2[|prefix|..|prefix| + |c2|];
  }

  /** With an empty type, a stem ending in '_' leaves a double underscore in the name. */
  lemma MaskNameDoubleUnderscore()
    ensures MaskName("cat_", "", "0") == "cat__0.png"
  {
    MaskNameShape("cat_", "", "0");
  }

  /**
   * Different groups can still share a name: '_' may occur inside a stem or
   * a type, and an empty stem or type drops its segment.
   */
  lemma MaskNamesCollideAcrossGroups()
    ensures MaskName("a_b", "", "0") == MaskName("a", "b", "0")
    ensures MaskName("", "cat", "0") == MaskName("cat", "", "0") == "cat_0.png"
  {
    MaskNameShape("a_b", "", "0");
    MaskNameShape("a", "b", "0");
    MaskNameShape("", "cat", "0");
    MaskNameShape("cat", "", "0");
  }

  /** Mask names within one (stem, type) group of a numbered table are all different. */
  lemma GroupNamesDistinct(df: seq<Record>)
    requires CountsAssigned(df)
    ensures forall i, j :: 0 <= i < j < |df| && GroupKey(df[i]) == GroupKey(df[j]) ==>
              MaskName(df[i].filename, df[i].regionType, df[i].count) != MaskName(df[j].filename, df[j].regionType, df[j].count)
  {
    forall i, j | 0 <= i < j < |df| && GroupKey(df[i]) == GroupKey(df[j])
      ensures MaskName(df[i].filename, df[i].regionType, df[i].count) != MaskName(df[j].filename, df[j].regionType, df[j].count)
    {
      SameGroupCountsIncrease(df, i, j);
      if MaskName(df[i].filename, df[i].regionType, df[i].count) == MaskName(df[j].filename, df[j].regionType, df[j].count) {
        MaskNameInjective(df[i].filename, df[i].regionType, df[i].count, df[j].count);
      }
    }
  }

  /**
   * In a numbered table every mask name ends in ".png" but not in "_.png",
   * and two records of one group get different names.
   */
  lemma TableNames(df: seq<Record>)
    requires CountsAssigned(df)
    ensures forall i :: 0 <= i < |df| ==>
              var name := MaskName(df[i].filename, df[i].regionType, df[i].count);
              EndsWith(name, OutFileType) && !EndsWith(name, "_" + OutFileType)
    ensures forall i, j :: 0 <= i < j < |df| && GroupKey(df[i]) == GroupKey(df[j]) ==>
              MaskName(df[i].filename, df[i].regionType, df[i].count) != MaskName(df[j].filename, df[j].regionType, df[j].count)
  {
    forall i | 0 <= i < |df|
      ensures var name := MaskName(df[i].filename, df[i].regionType, df[i].count);
              EndsWith(name, OutFileType) && !EndsWith(name, "_" + OutFileType)
    {
      MaskNameSuffix(df[i].filename, df[i].regionType, df[i].count);
    }
    GroupNamesDistinct(df);
  }

  /**
   * The name `create_images` saves a record's mask under: the segment list
   * [filename, type, count] with ".png" appended to its last element, empty
   * segments filtered out, the rest joined by '_'.
   */
  method OutputName(rec: Record) returns (outImgName: string)
    ensures outImgName == MaskName(rec.filename, rec.regionType, rec.count)
  {
    var segments := [rec.filename, rec.regionType, rec.count];
    segments := segments[|segments| - 1 := segments[|segments| - 1] + OutFileType];
    assert segments == [rec.filename, rec.regionType, rec.count + OutFileType];
    outImgName := Join(NonEmpty(segments), "_");
  }

  /** What `create_images` does for one record, I/O aside. */
  datatype MaskJob = MaskJob(sourceImage: string, polygon: seq<(int, int)>, maskName: string)

  class MaskGenerator {
    const imgDir: string
    const outDir: string
    var data: seq<Record>
    ghost var document: Document

    /** `data` is the table built from `document`. */
    ghost predicate Valid()
      reads this
    {
      Loadable(document) && Normalized(document, data)
    }

    constructor (doc: Document, imgDir: string, outDir: string)
      requires Loadable(doc)
      ensures Valid() && document == doc
      ensures this.imgDir == imgDir && this.outDir == outDir
    {
      this.imgDir := imgDir;
      this.outDir := outDir;
      document := doc;
      var df := PrepareDf(doc);
      data := df;
    }

    /**
     * Flatten the document, split each filename at its '.', number the rows
     * of each (stem, type) group in row order, and keep the six output columns.
     */
    static method PrepareDf(doc: Document) returns (df: seq<Record>)
      requires Loadable(doc)
      ensures |df| == TotalRegions(doc)
      ensures forall i :: 0 <= i < |df| ==> Derived(Flatten(doc)[i], df[i])
      ensures CountsAssigned(df)
    {
      var rows := Flatten(doc);
      forall i | 0 <= i < |rows| ensures HasOneDot(rows[i].filename) {
        var ek := Origin(doc, i);
      }
      var parts := seq(|rows|, i requires 0 <= i < |rows| && HasOneDot(rows[i].filename) => SplitFilename(rows[i].filename));
      var keys := seq(|rows|, i requires 0 <= i < |rows| => (parts[i].0, rows[i].regionType));
      var counts := CumCount(keys);
      df := seq(|rows|, i requires 0 <= i < |rows| =>
        Record(parts[i].0, rows[i].xPoints, rows[i].yPoints, rows[i].regionType, parts[i].1, NatToString(counts[i])));
      assert GroupKeys(df) == keys;
    }

    /**
     * One job per record, in table order: reopen `<filename>.<filetype>`,
     * pair the coordinates, and name the mask from the record's segments.
     */
    method CreateImages() returns (jobs: seq<MaskJob>)
      requires Valid()
      ensures |jobs| == |data|
      ensures forall i :: 0 <= i < |jobs| ==>
                && jobs[i].sourceImage == Flatten(document)[i].filename
                && jobs[i].polygon == Zip(data[i].xPoints, data[i].yPoints)
                && jobs[i].maskName == MaskName(data[i].filename, data[i].regionType, data[i].count)
      ensures forall i :: 0 <= i < |jobs| ==>
                EndsWith(jobs[i].maskName, OutFileType) && !EndsWith(jobs[i].maskName, "_" + OutFileType)
      ensures forall i, j :: 0 <= i < j < |jobs| && GroupKey(data[i]) == GroupKey(data[j]) ==>
                jobs[i].maskName != jobs[j].maskName
    {
      jobs := [];
      for i := 0 to |data|
        invariant |jobs| == i
        invariant forall j :: 0 <= j < i ==>
                    && jobs[j].sourceImage == data[j].filename + "." + data[j].filetype
                    && jobs[j].polygon == Zip(data[j].xPoints, data[j].yPoints)
                    && jobs[j].maskName == MaskName(data[j].filename, data[j].regionType, data[j].count)
      {
        var row := data[i];
        var ogImg := row.filename + "." + row.filetype;
        var coords := Zip(row.xPoints, row.yPoints);
        var outImgName := OutputName(row);
        jobs := jobs + [MaskJob(ogImg, coords, outImgName)];
      }
      TableNames(data);
    }
  }
}
