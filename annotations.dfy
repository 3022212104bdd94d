/**
 * The annotation document exported by the VGG Image Annotator and the flat
 * region records the mask generator derives from it.
 *
 * The document maps entry ids to entries; JSON keeps the keys in order, so
 * it is modelled as a sequence of (id, entry) pairs. `Flatten` is the
 * `json_normalize` / `concat` / `join` chain: one row per region, entries
 * first, regions within an entry next, each row carrying its entry's
 * columns. The field names of `Row` are the column names after the rename.
 */
module Annotations {
  import opened Counting
  import opened Text

  datatype Region = Region(
    shapeName: string,                     // shape_attributes.name
    allPointsX: seq<int>,                  // shape_attributes.all_points_x
    allPointsY: seq<int>,                  // shape_attributes.all_points_y
    regionType: string,                    // region_attributes.Type
    otherAttributes: map<string, string>   // any further region_attributes.* columns
  )

  datatype Entry = Entry(
    filename: string,
    size: int,
    regions: seq<Region>,
    fileAttributes: map<string, string>
  )

  datatype Keyed = Keyed(id: string, entry: Entry)

  type Document = seq<Keyed>

  /** A row of the flattened table, before the drop and the projection. */
  datatype Row = Row(
    filename: string,
    size: int,
    fileAttributes: map<string, string>,
    shapeName: string,
    xPoints: seq<int>,
    yPoints: seq<int>,
    regionType: string,
    otherAttributes: map<string, string>
  )

  /** A row of the table `prepare_df` returns: exactly these six columns. */
  datatype Record = Record(
    filename: string,   // the stem: the original filename before its '.'
    xPoints: seq<int>,
    yPoints: seq<int>,
    regionType: string,
    filetype: string,   // the extension after the '.'
    count: string       // running index within the (filename, type) group
  )

  function MakeRow(e: Entry, r: Region): Row {
    Row(e.filename, e.size, e.fileAttributes, r.shapeName, r.allPointsX, r.allPointsY, r.regionType, r.otherAttributes)
  }

  function RowsOf(e: Entry): (rows: seq<Row>)
    ensures |rows| == |e.regions|
  {
    seq(|e.regions|, k requires 0 <= k < |e.regions| => MakeRow(e, e.regions[k]))
  }

  /** Number of regions over all entries. */
  function TotalRegions(doc: Document): nat {
    if doc == [] then 0
    else TotalRegions(doc[..|doc| - 1]) + |doc[|doc| - 1].entry.regions|
  }

  /** One row per region, entries in document order, regions in entry order; the ids are dropped. */
  function Flatten(doc: Document): (rows: seq<Row>)
    ensures |rows| == TotalRegions(doc)
  {
    if doc == [] then []
    else Flatten(doc[..|doc| - 1]) + RowsOf(doc[|doc| - 1].entry)
  }

  /** Region `k` of entry `e` becomes row `TotalRegions(doc[..e]) + k`. */
  lemma {:induction false} FlattenAt(doc: Document, e: nat, k: nat)
    requires e < |doc| && k < |doc[e].entry.regions|
    ensures TotalRegions(doc[..e]) + k < |Flatten(doc)|
    ensures Flatten(doc)[TotalRegions(doc[..e]) + k] == MakeRow(doc[e].entry, doc[e].entry.regions[k])
    decreases |doc|
  {
    var init := doc[..|doc| - 1];
    if e == |doc| - 1 {
      assert doc[..e] == init;
    } else {
      assert init[..e] == doc[..e];
      FlattenAt(init, e, k);
      TotalRegionsPrefix(doc, e + 1);
      TotalRegionsMonotone(init, e + 1, |init|);
      assert doc[..e + 1] == init[..e + 1];
    }
  }

  lemma TotalRegionsPrefix(doc: Document, e: nat)
    requires 0 < e <= |doc|
    ensures TotalRegions(doc[..e]) == TotalRegions(doc[..e - 1]) + |doc[e - 1].entry.regions|
  {
    assert doc[..e][..e - 1] == doc[..e - 1];
  }

  lemma {:induction false} TotalRegionsMonotone(doc: Document, e1: nat, e2: nat)
    requires e1 <= e2 <= |doc|
    ensures TotalRegions(doc[..e1]) <= TotalRegions(doc[..e2])
    decreases e2 - e1
  {
    if e1 < e2 {
      TotalRegionsPrefix(doc, e2);
      TotalRegionsMonotone(doc, e1, e2 - 1);
    }
  }

  /** Rows keep document order: a region of an earlier entry comes before every region of a later one. */
  lemma FlattenOrder(doc: Document, e1: nat, k1: nat, e2: nat, k2: nat)
    requires e1 < e2 < |doc|
    requires k1 < |doc[e1].entry.regions| && k2 < |doc[e2].entry.regions|
    ensures TotalRegions(doc[..e1]) + k1 < TotalRegions(doc[..e2]) + k2
  {
    TotalRegionsPrefix(doc, e1 + 1);
    TotalRegionsMonotone(doc, e1 + 1, e2);
  }

  /** Every row comes from one region of one entry (the converse of FlattenAt). */
  function Origin(doc: Document, i: nat): (ek: (nat, nat))
    requires i < |Flatten(doc)|
    ensures ek.0 < |doc| && ek.1 < |doc[ek.0].entry.regions|
    ensures i == TotalRegions(doc[..ek.0]) + ek.1
    ensures Flatten(doc)[i] == MakeRow(doc[ek.0].entry, doc[ek.0].entry.regions[ek.1])
    decreases |doc|
  {
    var init := doc[..|doc| - 1];
    assert doc[..|doc| - 1] == init;
    if i < TotalRegions(init) then
      var ek := Origin(init, i);
      assert init[..ek.0] == doc[..ek.0];
      ek
    else
      (|doc| - 1, i - TotalRegions(init))
  }

  /** The entry ids play no part in the flattened table. */
  lemma {:induction false} FlattenIgnoresIds(d1: Document, d2: Document)
    requires |d1| == |d2|
    requires forall e :: 0 <= e < |d1| ==> d1[e].entry == d2[e].entry
    ensures Flatten(d1) == Flatten(d2)
    decreases |d1|
  {
    if d1 != [] {
      FlattenIgnoresIds(d1[..|d1| - 1], d2[..|d2| - 1]);
    }
  }

  predicate HasOneDot(name: string) {
    Occurrences(name, '.') == 1
  }

  /** `str.split(".", expand=True)` on a filename with exactly one '.'. */
  function SplitFilename(name: string): (r: (string, string))
    requires HasOneDot(name)
    ensures r.0 + "." + r.1 == name
    ensures '.' !in r.0 && '.' !in r.1
  {
    var parts := Split(name, '.');
    SplitPieces(name, '.');
    JoinSplit(name, '.');
    assert Join(parts, ".") == Join(parts[..1], ".") + "." + parts[1];
    (parts[0], parts[1])
  }

  /** A name with one dot has only one stem and extension. */
  lemma StemAndExtensionUnique(stem: string, ext: string, name: string)
    requires '.' !in stem && '.' !in ext && stem + "." + ext == name
    ensures HasOneDot(name) && SplitFilename(name) == (stem, ext)
  {
    SplitJoin([stem, ext], '.');
    SplitPieces(name, '.');
    assert Join([stem, ext], ".") == Join([stem, ext][..1], ".") + "." + ext;
    assert [stem, ext][..1] == [stem];
  }

  /** The stem of a one-dot filename does not depend on its extension. */
  lemma StemIgnoresExtension(stem: string, ext1: string, ext2: string)
    requires '.' !in stem && '.' !in ext1 && '.' !in ext2
    ensures HasOneDot(stem + "." + ext1) && HasOneDot(stem + "." + ext2)
    ensures SplitFilename(stem + "." + ext1).0 == SplitFilename(stem + "." + ext2).0 == stem
  {
    StemAndExtensionUnique(stem, ext1, stem + "." + ext1);
    StemAndExtensionUnique(stem, ext2, stem + "." + ext2);
  }

  /**
   * What `prepare_df` needs to get through: some region exists (otherwise the
   * `shape_attributes.name` column to drop is missing), and every entry that
   * has regions names a file with exactly one '.'.
   */
  predicate Loadable(doc: Document) {
    && TotalRegions(doc) > 0
    && forall e :: 0 <= e < |doc| && |doc[e].entry.regions| > 0 ==> HasOneDot(doc[e].entry.filename)
  }

  /** The record kept for a row: the filename split at its '.', the renamed columns, and nothing else. */
  predicate Derived(row: Row, rec: Record) {
    && rec.filename + "." + rec.filetype == row.filename
    && '.' !in rec.filename && '.' !in rec.filetype
    && rec.xPoints == row.xPoints
    && rec.yPoints == row.yPoints
    && rec.regionType == row.regionType
  }

  function GroupKey(rec: Record): (string, string) {
    (rec.filename, rec.regionType)
  }

  function GroupKeys(df: seq<Record>): (keys: seq<(string, string)>)
    ensures |keys| == |df|
  {
    seq(|df|, i requires 0 <= i < |df| => GroupKey(df[i]))
  }

  /** Each record's count is the decimal number of earlier records with its (stem, type) pair. */
  predicate CountsAssigned(df: seq<Record>) {
    forall i :: 0 <= i < |df| ==> df[i].count == NatToString(Occurrences(GroupKeys(df)[..i], GroupKey(df[i])))
  }

  /** `df` is the table `prepare_df` returns for `doc`. */
  predicate Normalized(doc: Document, df: seq<Record>) {
    && |df| == |Flatten(doc)|
    && (forall i :: 0 <= i < |df| ==> Derived(Flatten(doc)[i], df[i]))
    && CountsAssigned(df)
  }

  /** Region `k` of entry `e` gives the record at its flattened position, with the entry's filename. */
  lemma RecordOrigin(doc: Document, df: seq<Record>, e: nat, k: nat)
    requires Normalized(doc, df)
    requires e < |doc| && k < |doc[e].entry.regions|
    ensures var i := TotalRegions(doc[..e]) + k;
            && i < |df|
            && df[i].filename + "." + df[i].filetype == doc[e].entry.filename
            && df[i].xPoints == doc[e].entry.regions[k].allPointsX
            && df[i].yPoints == doc[e].entry.regions[k].allPointsY
            && df[i].regionType == doc[e].entry.regions[k].regionType
  {
    FlattenAt(doc, e, k);
  }

  /** Two records of one group never share a count, and the later one has the larger count. */
  lemma SameGroupCountsIncrease(df: seq<Record>, i: nat, j: nat)
    requires CountsAssigned(df)
    requires i < j < |df| && GroupKey(df[i]) == GroupKey(df[j])
    ensures df[i].count != df[j].count
    ensures ParseDecimal(df[i].count) < ParseDecimal(df[j].count)
  {
    var keys := GroupKeys(df);
    var ci := Occurrences(keys[..i], keys[i]);
    var cj := Occurrences(keys[..j], keys[j]);
    CountsIncreaseWithinGroup(keys, i, j);
    ParseNatToString(ci);
    ParseNatToString(cj);
  }

  /** Some record of group `key` carries the count `c`. */
  ghost predicate CountUsed(df: seq<Record>, key: (string, string), c: nat) {
    exists i :: 0 <= i < |df| && GroupKey(df[i]) == key && df[i].count == NatToString(c)
  }

  /** The counts of the records of group `key` are exactly 0 .. n - 1, where n is the group's size. */
  lemma GroupCountsExact(df: seq<Record>, key: (string, string))
    requires CountsAssigned(df)
    ensures forall i :: 0 <= i < |df| && GroupKey(df[i]) == key ==>
              ParseDecimal(df[i].count) < Occurrences(GroupKeys(df), key)
    ensures forall c :: 0 <= c < Occurrences(GroupKeys(df), key) ==> CountUsed(df, key, c)
  {
    var keys := GroupKeys(df);
    GroupCountsAreRange(keys, key);
    forall i | 0 <= i < |df| && GroupKey(df[i]) == key
      ensures ParseDecimal(df[i].count) < Occurrences(keys, key)
    {
      ParseNatToString(Occurrences(keys[..i], key));
    }
    forall c | 0 <= c < Occurrences(keys, key)
      ensures CountUsed(df, key, c)
    {
      assert CountTaken(keys, key, c);
      var i :| 0 <= i < |keys| && keys[i] == key && Occurrences(keys[..i], key) == c;
      assert GroupKey(df[i]) == key && df[i].count == NatToString(c);
    }
  }

  /**
   * Grouping is by stem: regions of `stem.ext1` and `stem.ext2` with one type
   * fall in one group and get different counts.
   */
  lemma SharedStemSharesCounter(doc: Document, df: seq<Record>, i: nat, j: nat, stem: string, ext1: string, ext2: string)
    requires Normalized(doc, df)
    requires i < j < |df|
    requires '.' !in stem && '.' !in ext1 && '.' !in ext2
    requires Flatten(doc)[i].filename == stem + "." + ext1
    requires Flatten(doc)[j].filename == stem + "." + ext2
    requires Flatten(doc)[i].regionType == Flatten(doc)[j].regionType
    ensures GroupKey(df[i]) == GroupKey(df[j])
    ensures df[i].count != df[j].count
  {
    StemAndExtensionUnique(df[i].filename, df[i].filetype, stem + "." + ext1);
    StemAndExtensionUnique(df[j].filename, df[j].filetype, stem + "." + ext2);
    StemIgnoresExtension(stem, ext1, ext2);
    SameGroupCountsIncrease(df, i, j);
  }

  /** The table is determined by the document: `prepare_df` is deterministic. */
  lemma NormalizedUnique(doc: Document, a: seq<Record>, b: seq<Record>)
    requires Normalized(doc, a) && Normalized(doc, b)
    ensures a == b
  {
    var rows := Flatten(doc);
    forall i | 0 <= i < |a|
      ensures GroupKey(a[i]) == GroupKey(b[i]) && a[i].filetype == b[i].filetype
    {
      StemAndExtensionUnique(a[i].filename, a[i].filetype, rows[i].filename);
      StemAndExtensionUnique(b[i].filename, b[i].filetype, rows[i].filename);
    }
    assert GroupKeys(a) == GroupKeys(b);
    forall i | 0 <= i < |a| ensures a[i] == b[i] {
    }
  }
}
