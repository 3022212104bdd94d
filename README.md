# MaskGenerator in Dafny

A model of `MaskGenerator`, which turns polygon annotations exported by the
VGG Image Annotator into black-and-white PNG masks, one per annotated region.

- `prepare_df` flattens the annotation document into one row per region. It
  renames the region columns to `x_points`, `y_points` and `type`, drops the
  bookkeeping columns, and splits `filename` at its `.` into a stem and a
  `filetype`. It then numbers the rows of each `(stem, type)` group in row
  order (`count`, the decimal string of pandas' `cumcount`) and keeps exactly
  six columns.
- `create_images` walks that table. For each row it reopens
  `<filename>.<filetype>`, pairs the x and y coordinates into a polygon, and
  names the mask by joining the non-empty segments of
  `[filename, type, count + ".png"]` with `_`.

Files:

- `counting.dfy` (module `Counting`): occurrence counting and the running
  counter. `CumCount` is a loop that keeps a map from each key to its next index.
- `text.dfy` (module `Text`): the Python string operations used. These are
  `str.split`, `sep.join`, `filter(None, …)` and `str(n)`, with their
  round-trip lemmas.
- `annotations.dfy` (module `Annotations`): the document, row and record
  datatypes. It holds the flattening, the filename split, and the
  specification `Normalized` of the table `prepare_df` returns, with lemmas
  about it.
- `masks.dfy` (module `Masks`): coordinate pairing and mask naming. It holds
  the class `MaskGenerator`: its constructor builds `data` with the static
  method `PrepareDf`, and `CreateImages` returns, for each record, the source
  image, polygon and mask name that would be used.

The document is a sequence of `(id, entry)` pairs in JSON key order. Reading
the JSON file is not modelled; a parsed value is the input.

The model follows the code in these points:

- The code splits the filename on every `.`, not on the first one.
- The code raises no schema error for a shape that is not a polygon, or for
  x and y lists of different lengths. The pairing truncates to the shorter
  list.
- A missing `Type` gives a `NaN` label in the code, not an empty string (see
  below).

Output names are unique within a `(stem, type)` group, but not across groups,
because `_` may occur inside a stem or a label, or because an empty stem or
type drops its segment. `Masks.MaskNamesCollideAcrossGroups` shows both: two
pairs of groups whose masks get the same name. With an empty type, a stem
that ends in `_` gives a double underscore: `Masks.MaskNameDoubleUnderscore`
shows that stem `cat_` and count `0` give `cat__0.png`.

## Model

| member | source | states |
|---|---|---|
| Annotations.Flatten | MaskGenerator.py:33-40 | the flattened table has exactly one row per region of the document |
| Annotations.FlattenAt | MaskGenerator.py:33-40 | region k of entry e becomes row (regions of earlier entries) + k, and carries that entry's filename, size and file attributes |
| Annotations.Origin | MaskGenerator.py:33-40 | conversely, every row is the row of exactly one (entry, region) position |
| Annotations.FlattenOrder | MaskGenerator.py:33-40 | entries-then-regions order: every region of an earlier entry comes before every region of a later entry |
| Annotations.FlattenIgnoresIds | MaskGenerator.py:35-39 | the entry ids are discarded: documents that differ only in ids flatten to the same table |
| Annotations.SplitFilename | MaskGenerator.py:53 | for a filename with one '.', stem + "." + filetype rebuilds the filename, and neither part contains a '.' |
| Annotations.StemAndExtensionUnique | MaskGenerator.py:53 | a stem and an extension without '.' form a one-dot name, and splitting that name gives them back |
| Annotations.StemIgnoresExtension | MaskGenerator.py:53-55 | `stem.ext1` and `stem.ext2` split to the same stem, which is the first half of the grouping key |
| Annotations.RecordOrigin | MaskGenerator.py:33-57 | in the returned table, the record of region k of entry e reopens the entry's filename and keeps the region's x points, y points and type |
| Annotations.SameGroupCountsIncrease | MaskGenerator.py:54-55 | two records of one (stem, type) group have different counts, and the later one has the larger number |
| Annotations.GroupCountsExact | MaskGenerator.py:54-55 | the counts of a group of n records are exactly the decimal strings of 0 .. n-1 |
| Annotations.SharedStemSharesCounter | MaskGenerator.py:53-55 | regions of `cat.jpg` and `cat.png` with one type share a group key and get different counts |
| Annotations.NormalizedUnique | MaskGenerator.py:29-58 | the returned table is determined by the document (prepare_df is deterministic) |
| Counting.Occurrences | MaskGenerator.py:54-55 | the number of earlier equal keys is at most the number of earlier rows |
| Counting.CumCount | MaskGenerator.py:54-55 | the running counter gives row i the number of earlier rows with the same key |
| Counting.CountsIncreaseWithinGroup | MaskGenerator.py:54-55 | within a group the counter strictly increases in row order |
| Counting.EarlierCountExists | MaskGenerator.py:54-55 | every value below a row's counter was given to an earlier row of its group |
| Counting.GroupCountsAreRange | MaskGenerator.py:54-55 | the counters of a group are all below the group size, and every value below the size is used |
| Text.NatToString | MaskGenerator.py:55 | `astype(str)` of a count is a non-empty string of digits, with a leading '0' only for 0 |
| Text.ParseNatToString | MaskGenerator.py:55 | reading the decimal string back gives the count |
| Text.NatToStringInjective | MaskGenerator.py:55 | different counts print as different strings |
| Text.Split | MaskGenerator.py:53 | `str.split` always gives at least one piece (the empty string gives one empty piece) |
| Text.SplitPieces | MaskGenerator.py:53 | a split gives one piece more than there are separators, and no piece contains the separator |
| Text.JoinSplit | MaskGenerator.py:53 | joining the pieces of a split with the separator rebuilds the string |
| Text.SplitJoin | MaskGenerator.py:53 | splitting a join of separator-free pieces gives the pieces back |
| Text.Join | MaskGenerator.py:77 | `sep.join(parts)`: the parts with sep between neighbours; undone by Split (JoinSplit, SplitJoin) |
| Text.NonEmpty | MaskGenerator.py:77 | `filter(None, …)` keeps no empty segment and never lengthens the list |
| Text.NonEmptyAppend | MaskGenerator.py:77 | filtering a concatenation is the concatenation of the filtered halves: order and repeats are kept |
| Text.NonEmptySingle | MaskGenerator.py:77 | a single part is kept exactly when it is non-empty |
| Text.NonEmptyMembers | MaskGenerator.py:77 | a segment survives the filter exactly when it was in the list and is non-empty |
| Masks.MaskGenerator.PrepareDf | MaskGenerator.py:29-58 | one record per region in flattened order; each record has the split filename and the renamed x, y and type columns and no others, and its count is the decimal number of earlier records with its (stem, type) pair |
| Masks.MaskGenerator.constructor | MaskGenerator.py:13-27 | the generator keeps the two directories and the table prepare_df builds from the document |
| Masks.MaskGenerator.CreateImages | MaskGenerator.py:64-77 | one job per record in table order; it reopens the entry's original filename, fills the zipped polygon, and uses the mask name; names end in ".png", never in "_.png", and differ within a group |
| Masks.Zip | MaskGenerator.py:67-69 | the polygon's length is the shorter of the two list lengths |
| Masks.ZipAt | MaskGenerator.py:67-69 | point i of the polygon is (x[i], y[i]) |
| Masks.UnzipZip | MaskGenerator.py:67-69 | unzipping the polygon gives back the common-length prefixes of the two coordinate lists |
| Masks.ZipUnzip | MaskGenerator.py:67-69 | every polygon is the zip of its own x and y lists |
| Masks.MaskName | MaskGenerator.py:73-77 | the non-empty segments of [stem, type, count + ".png"] joined by "_" (closed form in MaskNameShape) |
| Masks.MaskNameShape | MaskGenerator.py:73-77 | the joined non-empty segments are `stem_` (if the stem is non-empty), then `type_` (if the type is non-empty), then count + ".png"; with an empty type this is `stem_count.png`, or `count.png` |
| Masks.OutputName | MaskGenerator.py:73-77 | appending ".png" to the last segment, filtering and joining gives the mask name |
| Masks.MaskNameSuffix | MaskGenerator.py:73-77 | with a decimal count the name ends in ".png" and never in "_.png" |
| Masks.MaskNameInjective | MaskGenerator.py:73-77 | within one (stem, type) group the name determines the count |
| Masks.GroupNamesDistinct | MaskGenerator.py:54-56 | in a numbered table, two records of one group get different mask names |
| Masks.TableNames | MaskGenerator.py:54-56 | in a numbered table every mask name ends in ".png" but not "_.png", and names differ within a group |
| Masks.MaskNameDoubleUnderscore | MaskGenerator.py:73-77 | with an empty type, stem `cat_` and count `0` give `cat__0.png` |
| Masks.MaskNamesCollideAcrossGroups | MaskGenerator.py:73-77 | untyped stem "a_b" and stem "a" with type "b" get the same name, `a_b_0.png`; an empty stem with type "cat" and the untyped stem "cat" both get `cat_0.png` |

## Left out

- Reading the JSON file (`pd.read_json`) is I/O. The model takes the parsed document, with its entries in key order.
- The pandas index handling (`reset_index`, the join on the entry id) is not modelled. Only its effect is: one row per region, with the entry's columns.
- Annotations.Flatten keeps document order: entries in key order, then regions in list order. The join keeps that order only in pandas 2.2 and later. Older pandas joins a non-unique left index sorted, so once an entry has several regions the rows come out sorted by entry id (regions keep their order within an entry), and the counts follow that order instead.
- Masks.MaskGenerator.PrepareDf (and the constructor) require at least one region. A document with no entries at all fails at `json_df.pop("regions")`, which raises `KeyError`. A document whose entries all have empty region lists lacks the `shape_attributes.name` column, so `drop` raises `KeyError`. Neither error path is modelled. The `size` and `file_attributes` columns are always present in the model.
- Masks.MaskGenerator.PrepareDf requires every filename that has regions to contain exactly one '.'. With zero or several dots, the two-column assignment depends on pandas column alignment, and that is not modelled.
- A missing `Type` attribute is not modelled; the label is always a string, possibly empty. In the code such a label is `NaN`: the group drops it, its count becomes "nan", and the join of the name fails on a float.
- Probing the source image's size with PIL, creating the bilevel canvas and filling the polygon are library calls on raster images. The model stops at the polygon to fill.
- Saving the mask and composing the input and output paths are I/O. The directories are kept as plain strings.
- The code does not check that the shape is a polygon or that the x and y lists have equal lengths. The model adds no such check either.
