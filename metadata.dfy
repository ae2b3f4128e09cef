/**
 * The sample metadata both wrappers read: an ordered list of sample IDs
 * and an ordered list of named columns, each column declared numeric or
 * categorical and holding one value per sample.
 */
module QiimeMetadata {
  import opened Strings

  type SampleId = string
  type ColumnName = string

  /** Column names pairwise distinct. */
  ghost predicate Distinct(cs: seq<ColumnName>)
  {
    forall i, j :: 0 <= i < j < |cs| ==> cs[i] != cs[j]
  }

  /** The declared type of a metadata column; `Unrecognized` is any type other than the two known ones. */
  datatype ColumnKind = Numeric | Categorical | Unrecognized(name: string)

  /** A column's values, `values[i]` belonging to the `i`-th sample ID (numeric values in their textual form). */
  datatype Column = Column(kind: ColumnKind, values: seq<string>)

  datatype Metadata = Metadata(ids: seq<SampleId>, names: seq<ColumnName>, columns: map<ColumnName, Column>)
  {
    /** What a metadata object guarantees: at least one sample, no repeated ID or column name, a value per sample. */
    ghost predicate Valid()
    {
      && |ids| > 0
      && (forall i, j :: 0 <= i < j < |ids| ==> ids[i] != ids[j])
      && (forall i, j :: 0 <= i < j < |names| ==> names[i] != names[j])
      && (forall c :: c in columns <==> c in names)
      && (forall c :: c in columns ==> |columns[c].values| == |ids|)
    }

    /** The index of sample IDs. */
    function IdSet(): set<SampleId>
    {
      set i | 0 <= i < |ids| :: ids[i]
    }

    /** Every column is declared numeric or categorical. */
    ghost predicate KindsKnown()
    {
      forall c :: c in columns ==> !columns[c].kind.Unrecognized?
    }

    /** The IDs of the samples whose value in `column` is `value`. */
    function SamplesWithValue(column: ColumnName, value: string): (ids': set<SampleId>)
      requires Valid() && column in columns
      ensures forall s :: s in ids' <==> exists i :: 0 <= i < |ids| && ids[i] == s && columns[column].values[i] == value
    {
      set i | 0 <= i < |ids| && columns[column].values[i] == value :: ids[i]
    }

    /** The value that comes first when the column is sorted. */
    function SmallestValue(column: ColumnName): (v: string)
      requires Valid() && column in columns
      ensures v in columns[column].values
      ensures forall w :: w in columns[column].values ==> LexLe(v, w)
    {
      Smallest(columns[column].values)
    }
  }
}
