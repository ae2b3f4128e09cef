/**
 * The checks and defaults `_ancombc` applies before it hands the table,
 * the metadata and the reference levels to the ANCOM-BC R script:
 * column type tags, sample coverage, formula terms, `column::value`
 * reference-level directives, and a default directive for each formula
 * term that has none.
 */
module Ancombc {
  import opened Wrappers
  import opened Strings
  import opened QiimeMetadata
  import opened FormulaTerms

  /** The exceptions `_ancombc` raises, and before the R call only these. */
  datatype Error =
    /** `TypeError`: a metadata column of a type other than numeric or categorical. */
    | UnexpectedColumnType(kind: string)
    /** `KeyError`: table samples absent from the metadata. */
    | SamplesNotInMetadata(missing: set<SampleId>)
    /** `IndexError` from `_leaf_collector`: a parse list with fewer than three items. */
    | ShortFormulaList
    /** `ValueError` of `Metadata.get_column`: a formula term that is not a column. */
    | ColumnNotFound(column: ColumnName)
    /** `ValueError`: a directive without `::`. */
    | TooFewSeparators(directive: string)
    /** `ValueError`: a second directive for the same column. */
    | DuplicateReferenceColumn(column: ColumnName)
    /** `ValueError`: the directive's column is not in the metadata; `colonNote` adds the hint about `:`. */
    | ReferenceColumnNotFound(column: ColumnName, colonNote: bool)
    /** `TypeError`: the directive names a numeric column. */
    | NumericReferenceColumn(column: ColumnName)
    /** `ValueError`: the value never occurs in the column; `colonNote` adds the hint about `:`. */
    | LevelNotFound(directive: string, colonNote: bool)
    /** `ValueError`: the directive's column is not a formula term. */
    | ColumnNotInFormula(column: ColumnName)
    /** `ValueError`: no sample of the table has that value. */
    | LevelNotInTable(level: string)

  /** The errors the directive loop raises. */
  predicate IsDirectiveError(e: Error)
  {
    || e.TooFewSeparators? || e.DuplicateReferenceColumn? || e.ReferenceColumnNotFound?
    || e.NumericReferenceColumn? || e.LevelNotFound? || e.ColumnNotInFormula? || e.LevelNotInTable?
  }

  /** The tags of `md_column_types`. */
  const NumericTag: string := "numeric"
  const CategoricalTag: string := "categorical"

  /**
   * The `md_column_types` loop: each column, in metadata order, gets the
   * tag of its type; the first column of any other type raises.
   */
  method ColumnTypes(md: Metadata) returns (r: Result<map<ColumnName, string>, Error>)
    requires md.Valid()
    ensures r.Success? <==> md.KindsKnown()
    ensures r.Success? ==> r.value.Keys == md.columns.Keys
    ensures r.Success? ==> forall c :: c in r.value ==>
      && (r.value[c] == NumericTag <==> md.columns[c].kind.Numeric?)
      && (r.value[c] == CategoricalTag <==> md.columns[c].kind.Categorical?)
    ensures r.Failure? ==>
      exists k :: (0 <= k < |md.names|
        && md.columns[md.names[k]].kind.Unrecognized?
        && r.error == UnexpectedColumnType(md.columns[md.names[k]].kind.name)
        && forall j :: 0 <= j < k ==> !md.columns[md.names[j]].kind.Unrecognized?)
  {
    var types: map<ColumnName, string> := map[];
    var i := 0;
    while i < |md.names|
      invariant 0 <= i <= |md.names|
      invariant forall c :: c in types <==> c in md.names[..i]
      invariant forall j :: 0 <= j < i ==> !md.columns[md.names[j]].kind.Unrecognized?
      invariant forall c :: c in types ==>
        && (types[c] == NumericTag <==> md.columns[c].kind.Numeric?)
        && (types[c] == CategoricalTag <==> md.columns[c].kind.Categorical?)
    {
      var name := md.names[i];
      assert md.names[..i + 1] == md.names[..i] + [name];
      match md.columns[name].kind {
        case Numeric =>
          types := types[name := NumericTag];
        case Categorical =>
          types := types[name := CategoricalTag];
        case Unrecognized(kind) =>
          return Failure(UnexpectedColumnType(kind));
      }
      i := i + 1;
    }
    assert md.names[..i] == md.names;
    return Success(types);
  }

  /** `table.index.difference(meta.index)`: table samples the metadata lacks. */
  function MissingSamples(md: Metadata, tableIds: set<SampleId>): (missing: set<SampleId>)
    ensures missing == {} <==> tableIds <= md.IdSet()
    ensures forall s :: s in missing <==> s in tableIds && s !in md.ids
  {
    var missing := tableIds - md.IdSet();
    assert missing == {} ==> tableIds <= md.IdSet() by {
      if missing == {} {
        forall s | s in tableIds ensures s in md.IdSet() {
          assert s !in missing;
        }
      }
    }
    missing
  }

  /** The term check: `metadata.get_column` on each formula term, in order. */
  method CheckFormulaTerms(md: Metadata, terms: seq<string>) returns (r: Result<(), Error>)
    ensures r.Success? <==> forall t :: t in terms ==> t in md.columns
    ensures r.Failure? ==>
      exists k :: (0 <= k < |terms|
        && terms[k] !in md.columns && r.error == ColumnNotFound(terms[k])
        && forall j :: 0 <= j < k ==> terms[j] in md.columns)
  {
    var i := 0;
    while i < |terms|
      invariant 0 <= i <= |terms|
      invariant forall j :: 0 <= j < i ==> terms[j] in md.columns
    {
      if terms[i] !in md.columns {
        return Failure(ColumnNotFound(terms[i]));
      }
      i := i + 1;
    }
    return Success(());
  }

  /**
   * `level.split('::', maxsplit=1)`: the text before the first `::` and
   * everything after it, or `None` when there is no `::`.
   */
  function SplitFirst(d: string): (r: Option<(string, string)>)
    ensures r.None? <==> !HasSep(d)
    ensures r.Some? ==> r.value.0 + Separator + r.value.1 == d
    ensures r.Some? ==> !HasSep(r.value.0) && !EndsWithColon(r.value.0)
  {
    match FindSep(d, 0)
    case None => None
    case Some(i) =>
      NoSepInSlice(d, 0, i);
      assert !EndsWithColon(d[..i]) by {
        if EndsWithColon(d[..i]) {
          assert SepAt(d, i - 1);
        }
      }
      assert d == d[..i] + Separator + d[i + 2..];
      Some((d[..i], d[i + 2..]))
  }

  /**
   * Which `column::value` splittings the parser returns: exactly those
   * whose column has no `::` and does not end in `:`. The value may hold
   * any number of `::`.
   */
  lemma SplitFirstOfJoin(column: string, value: string)
    ensures SplitFirst(column + Separator + value) == Some((column, value))
      <==> !HasSep(column) && !EndsWithColon(column)
  {
    var d := column + Separator + value;
    FirstSepOfJoin(column, value);
    if SplitFirst(d) == Some((column, value)) {
      assert FindSep(d, 0).Some?;
      assert d[..FindSep(d, 0).value] == column;
    }
    if FindSep(d, 0) == Some(|column|) {
      assert d[..|column|] == column && d[|column| + 2..] == value;
    }
  }

  /** What `_ancombc` checks a directive against. */
  datatype Context = Context(md: Metadata, tableIds: set<SampleId>, terms: seq<string>)

  /**
   * The conditions of an accepted directive `column::value`, apart from
   * not repeating a column: the column is a non-numeric metadata column
   * and a formula term, the value occurs in it, and a sample of the table
   * carries the value.
   */
  ghost predicate Admissible(ctx: Context, column: ColumnName, value: string)
    requires ctx.md.Valid()
  {
    && column in ctx.md.columns
    && !ctx.md.columns[column].kind.Numeric?
    && value in ctx.md.columns[column].values
    && column in ctx.terms
    && ValueInTable(ctx, column, value)
  }

  /** Some sample of the table has `value` in `column`. */
  ghost predicate ValueInTable(ctx: Context, column: ColumnName, value: string)
    requires ctx.md.Valid() && column in ctx.md.columns
  {
    exists i :: 0 <= i < |ctx.md.ids| && ctx.md.columns[column].values[i] == value && ctx.md.ids[i] in ctx.tableIds
  }

  /** Directive `d` splits into `column` and a value, and that pair is admissible. */
  ghost predicate Accepted(ctx: Context, d: string, column: ColumnName)
    requires ctx.md.Valid()
  {
    SplitFirst(d).Some? && column == SplitFirst(d).value.0 && Admissible(ctx, column, SplitFirst(d).value.1)
  }

  /**
   * One pass of the directive loop; `seen` is `reference_level_columns`
   * so far. A directive is accepted exactly when it splits and its column
   * is new and admissible, and it then contributes its column. Otherwise
   * it raises the error of the first check it fails, the checks being
   * made in this order: a `::` is present, the column is new, the column
   * is in the metadata, it is not numeric, the value occurs in it, it is
   * a formula term, a table sample carries the value.
   */
  function CheckDirective(ctx: Context, seen: seq<ColumnName>, d: string): (r: Result<ColumnName, Error>)
    requires ctx.md.Valid()
    ensures SplitFirst(d).None? ==> r == Failure(TooFewSeparators(d))
    ensures SplitFirst(d).Some? ==>
      var column := SplitFirst(d).value.0;
      var value := SplitFirst(d).value.1;
      && (column in seen ==> r == Failure(DuplicateReferenceColumn(column)))
      && (column !in seen && column !in ctx.md.columns ==>
            r == Failure(ReferenceColumnNotFound(column, ':' in column)))
      && (column !in seen && column in ctx.md.columns && ctx.md.columns[column].kind.Numeric? ==>
            r == Failure(NumericReferenceColumn(column)))
      && (column !in seen && column in ctx.md.columns && !ctx.md.columns[column].kind.Numeric?
          && value !in ctx.md.columns[column].values ==>
            r == Failure(LevelNotFound(d, ':' in value)))
      && (column !in seen && column in ctx.md.columns && !ctx.md.columns[column].kind.Numeric?
          && value in ctx.md.columns[column].values && column !in ctx.terms ==>
            r == Failure(ColumnNotInFormula(column)))
      && (column !in seen && column in ctx.md.columns && !ctx.md.columns[column].kind.Numeric?
          && value in ctx.md.columns[column].values && column in ctx.terms
          && !ValueInTable(ctx, column, value) ==>
            r == Failure(LevelNotInTable(value)))
    ensures r.Success? <==>
      (SplitFirst(d).Some? && SplitFirst(d).value.0 !in seen
      && Admissible(ctx, SplitFirst(d).value.0, SplitFirst(d).value.1))
    ensures r.Success? ==> r.value == SplitFirst(d).value.0
    ensures r.Failure? ==> IsDirectiveError(r.error)
  {
    match SplitFirst(d)
    case None => Failure(TooFewSeparators(d))
    case Some((column, value)) =>
      if column in seen then Failure(DuplicateReferenceColumn(column))
      else if column !in ctx.md.columns then Failure(ReferenceColumnNotFound(column, ':' in column))
      else if ctx.md.columns[column].kind.Numeric? then Failure(NumericReferenceColumn(column))
      else if value !in ctx.md.columns[column].values then Failure(LevelNotFound(d, ':' in value))
      else if column !in ctx.terms then Failure(ColumnNotInFormula(column))
      else if ctx.md.SamplesWithValue(column, value) * ctx.tableIds == {} then
        assert !Admissible(ctx, column, value) by {
          forall i | 0 <= i < |ctx.md.ids| && ctx.md.columns[column].values[i] == value
            ensures ctx.md.ids[i] !in ctx.tableIds
          {
            assert ctx.md.ids[i] in ctx.md.SamplesWithValue(column, value);
            assert ctx.md.ids[i] !in ctx.md.SamplesWithValue(column, value) * ctx.tableIds;
          }
        }
        Failure(LevelNotInTable(value))
      else
        assert Admissible(ctx, column, value) by {
          var s :| s in ctx.md.SamplesWithValue(column, value) * ctx.tableIds;
        }
        Success(column)
  }

  /** The directive loop as a whole: the columns it collects, or the first error. */
  function ValidateAll(ctx: Context, seen: seq<ColumnName>, ds: seq<string>): (r: Result<seq<ColumnName>, Error>)
    requires ctx.md.Valid()
    ensures r.Failure? ==> IsDirectiveError(r.error)
    decreases |ds|
  {
    if ds == [] then Success(seen)
    else
      match CheckDirective(ctx, seen, ds[0])
      case Failure(e) => Failure(e)
      case Success(column) => ValidateAll(ctx, seen + [column], ds[1..])
  }

  /**
   * `columns` is `seen` followed by one column per directive of `ds`, in
   * directive order: the `k`-th directive is accepted with the `k`-th new
   * column, and that column occurs nowhere before it.
   */
  ghost predicate AcceptedRun(ctx: Context, seen: seq<ColumnName>, ds: seq<string>, columns: seq<ColumnName>)
    requires ctx.md.Valid()
  {
    && |columns| == |seen| + |ds| && columns[..|seen|] == seen
    && forall k :: 0 <= k < |ds| ==>
         Accepted(ctx, ds[k], columns[|seen| + k]) && columns[|seen| + k] !in columns[..|seen| + k]
  }

  /**
   * After the loop every directive has been split, checked and accepted,
   * `reference_level_columns` holds their columns in directive order, and
   * no column occurs twice.
   */
  lemma {:induction false} ValidateAllAccepted(ctx: Context, seen: seq<ColumnName>, ds: seq<string>, columns: seq<ColumnName>)
    requires ctx.md.Valid()
    requires ValidateAll(ctx, seen, ds) == Success(columns)
    ensures AcceptedRun(ctx, seen, ds, columns)
    decreases |ds|
  {
    if ds == [] {
      assert columns == seen;
    } else {
      var column := ValidateAllFirst(ctx, seen, ds, columns);
      var seen', tail := seen + [column], ds[1..];
      ValidateAllAccepted(ctx, seen', tail, columns);
      AcceptedShift(ctx, seen, column, seen', ds, tail, columns);
    }
  }

  /** A passing loop accepted its first directive, and the rest of the loop starts from `seen` grown by its column. */
  lemma ValidateAllFirst(ctx: Context, seen: seq<ColumnName>, ds: seq<string>, columns: seq<ColumnName>)
    returns (column: ColumnName)
    requires ctx.md.Valid()
    requires ds != [] && ValidateAll(ctx, seen, ds) == Success(columns)
    ensures Accepted(ctx, ds[0], column) && column !in seen
    ensures ValidateAll(ctx, seen + [column], ds[1..]) == Success(columns)
  {
    assert CheckDirective(ctx, seen, ds[0]).Success?;
    column := CheckDirective(ctx, seen, ds[0]).value;
  }

  /** The bookkeeping of one step of `ValidateAllAccepted`: the run for the tail gives the run for the whole. */
  lemma AcceptedShift(ctx: Context, seen: seq<ColumnName>, column: ColumnName, seen': seq<ColumnName>,
                      ds: seq<string>, tail: seq<string>, columns: seq<ColumnName>)
    requires ctx.md.Valid()
    requires seen' == seen + [column] && ds != [] && tail == ds[1..]
    requires Accepted(ctx, ds[0], column) && column !in seen
    requires AcceptedRun(ctx, seen', tail, columns)
    ensures AcceptedRun(ctx, seen, ds, columns)
  {
    assert columns[..|seen|] == columns[..|seen'|][..|seen|];
    forall k | 0 <= k < |ds|
      ensures Accepted(ctx, ds[k], columns[|seen| + k]) && columns[|seen| + k] !in columns[..|seen| + k]
    {
      if k == 0 {
        assert columns[|seen|] == seen'[|seen|] == column;
      } else {
        assert tail[k - 1] == ds[k] && |seen'| + (k - 1) == |seen| + k;
        assert Accepted(ctx, tail[k - 1], columns[|seen'| + (k - 1)])
          && columns[|seen'| + (k - 1)] !in columns[..|seen'| + (k - 1)];
      }
    }
  }

  /** Starting from no column, the accepted columns are distinct and one per directive. */
  lemma AcceptedColumnsDistinct(ctx: Context, ds: seq<string>, columns: seq<ColumnName>)
    requires ctx.md.Valid()
    requires ValidateAll(ctx, [], ds) == Success(columns)
    ensures |columns| == |ds| && Distinct(columns)
  {
    ValidateAllAccepted(ctx, [], ds, columns);
    forall i, j | 0 <= i < j < |columns| ensures columns[i] != columns[j] {
      assert columns[j] !in columns[..j] by {
        assert Accepted(ctx, ds[j], columns[0 + j]) && columns[0 + j] !in columns[..0 + j];
      }
      assert columns[..j][i] == columns[i];
    }
  }

  /**
   * When the loop raises, the error is that of the first directive that
   * fails its checks, all directives before it having been accepted.
   */
  lemma {:induction false} ValidateAllRejected(ctx: Context, seen: seq<ColumnName>, ds: seq<string>, e: Error)
    requires ctx.md.Valid()
    requires ValidateAll(ctx, seen, ds) == Failure(e)
    ensures exists k :: (0 <= k < |ds| && ValidateAll(ctx, seen, ds[..k]).Success?
      && CheckDirective(ctx, ValidateAll(ctx, seen, ds[..k]).value, ds[k]) == Failure(e))
    decreases |ds|
  {
    assert ds[..0] == [];
    var first := CheckDirective(ctx, seen, ds[0]);
    if first.Success? {
      var seen' := seen + [first.value];
      assert ValidateAll(ctx, seen', ds[1..]) == Failure(e);
      ValidateAllRejected(ctx, seen', ds[1..], e);
      var k :| 0 <= k < |ds[1..]| && ValidateAll(ctx, seen', ds[1..][..k]).Success?
        && CheckDirective(ctx, ValidateAll(ctx, seen', ds[1..][..k]).value, ds[1..][k]) == Failure(e);
      ValidateAllPrefix(ctx, seen, ds, k);
      assert ds[k + 1] == ds[1..][k];
      assert 0 <= k + 1 < |ds| && ValidateAll(ctx, seen, ds[..k + 1]).Success?
        && CheckDirective(ctx, ValidateAll(ctx, seen, ds[..k + 1]).value, ds[k + 1]) == Failure(e);
    }
  }

  /** Validating a prefix whose first directive passes validates the rest of that prefix after it. */
  lemma ValidateAllPrefix(ctx: Context, seen: seq<ColumnName>, ds: seq<string>, k: nat)
    requires ctx.md.Valid()
    requires k < |ds| && CheckDirective(ctx, seen, ds[0]).Success?
    ensures ValidateAll(ctx, seen, ds[..k + 1])
      == ValidateAll(ctx, seen + [CheckDirective(ctx, seen, ds[0]).value], ds[1..][..k])
  {
    assert ds[..k + 1][0] == ds[0] && ds[..k + 1][1..] == ds[1..][..k];
  }

  /**
   * Conversely: directives that all split, name distinct columns not yet
   * seen and are each admissible pass the loop.
   */
  lemma {:induction false} ValidateAllComplete(ctx: Context, seen: seq<ColumnName>, ds: seq<string>)
    requires ctx.md.Valid()
    requires forall k :: 0 <= k < |ds| ==>
      (SplitFirst(ds[k]).Some? && SplitFirst(ds[k]).value.0 !in seen
      && Admissible(ctx, SplitFirst(ds[k]).value.0, SplitFirst(ds[k]).value.1))
    requires forall i, j :: 0 <= i < j < |ds| ==> SplitFirst(ds[i]).value.0 != SplitFirst(ds[j]).value.0
    ensures ValidateAll(ctx, seen, ds).Success?
    decreases |ds|
  {
    if ds != [] {
      var column := SplitFirst(ds[0]).value.0;
      forall k | 0 <= k < |ds[1..]| ensures SplitFirst(ds[1..][k]).value.0 !in seen + [column] {
        assert ds[1..][k] == ds[k + 1];
      }
      forall i, j | 0 <= i < j < |ds[1..]|
        ensures SplitFirst(ds[1..][i]).value.0 != SplitFirst(ds[1..][j]).value.0
      {
        assert ds[1..][i] == ds[i + 1] && ds[1..][j] == ds[j + 1];
      }
      ValidateAllComplete(ctx, seen + [column], ds[1..]);
    }
  }

  /** The `reference_level_columns` loop: what `ValidateAll` specifies, one directive per pass. */
  method ValidateDirectives(ctx: Context, ds: seq<string>) returns (r: Result<seq<ColumnName>, Error>)
    requires ctx.md.Valid()
    ensures r == ValidateAll(ctx, [], ds)
    ensures r.Success? ==> |r.value| == |ds| && Distinct(r.value)
  {
    var columns: seq<ColumnName> := [];
    var i := 0;
    while i < |ds|
      invariant 0 <= i <= |ds|
      invariant ValidateAll(ctx, [], ds) == ValidateAll(ctx, columns, ds[i..])
    {
      assert ds[i..][0] == ds[i] && ds[i..][1..] == ds[i + 1..];
      var step := CheckDirective(ctx, columns, ds[i]);
      if step.Failure? {
        return Failure(step.error);
      }
      columns := columns + [step.value];
      i := i + 1;
    }
    assert ds[i..] == [];
    r := Success(columns);
    AcceptedColumnsDistinct(ctx, ds, columns);
  }

  /**
   * `_get_ref_level_defaults_from_formula_terms`'s directive: the term,
   * `::`, and the value that sorts first in that column.
   */
  function DefaultDirective(md: Metadata, term: ColumnName): (d: string)
    requires md.Valid() && term in md.columns
    ensures exists v :: (v in md.columns[term].values
      && (forall w :: w in md.columns[term].values ==> LexLe(v, w))
      && d == term + Separator + v)
  {
    term + Separator + md.SmallestValue(term)
  }

  /**
   * A default directive reads back as its term and that smallest value
   * when the term has no `::` and does not end in `:`, and as some other
   * column otherwise.
   */
  lemma DefaultDirectiveSplits(md: Metadata, term: ColumnName)
    requires md.Valid() && term in md.columns
    ensures SplitFirst(DefaultDirective(md, term)) == Some((term, md.SmallestValue(term)))
      <==> !HasSep(term) && !EndsWithColon(term)
  {
    SplitFirstOfJoin(term, md.SmallestValue(term));
  }

  /** The Python list of directive strings, which the front end grows in place. */
  class DirectiveList {
    var items: seq<string>

    constructor (initial: seq<string>)
      ensures items == initial
    {
      items := initial;
    }

    /** `list.append`. */
    method Append(d: string)
      modifies this
      ensures items == old(items) + [d]
    {
      items := items + [d];
    }
  }

  /** `_get_ref_level_defaults_from_formula_terms`: appends the term's default to the list it is given and returns that list. */
  method AppendDefault(md: Metadata, term: ColumnName, levels: DirectiveList) returns (same: DirectiveList)
    requires md.Valid() && term in md.columns
    modifies levels
    ensures same == levels
    ensures levels.items == old(levels.items) + [DefaultDirective(md, term)]
  {
    var value := md.SmallestValue(term);
    levels.Append(term + Separator + value);
    same := levels;
  }

  /** The defaults made when no directive is given: one per categorical term, in term order. */
  function CategoricalDefaults(md: Metadata, terms: seq<ColumnName>): seq<string>
    requires md.Valid() && forall t :: t in terms ==> t in md.columns
    decreases |terms|
  {
    if terms == [] then []
    else
      var last := terms[|terms| - 1];
      CategoricalDefaults(md, terms[..|terms| - 1])
        + (if md.columns[last].kind.Categorical? then [DefaultDirective(md, last)] else [])
  }

  /** The first defaulting pass makes the default of each categorical term, and nothing else. */
  lemma {:induction false} CategoricalDefaultsExact(md: Metadata, terms: seq<ColumnName>, d: string)
    requires md.Valid() && forall t :: t in terms ==> t in md.columns
    ensures d in CategoricalDefaults(md, terms)
      <==> exists t :: t in terms && md.columns[t].kind.Categorical? && d == DefaultDirective(md, t)
    decreases |terms|
  {
    if terms != [] {
      var init := terms[..|terms| - 1];
      assert terms == init + [terms[|terms| - 1]];
      CategoricalDefaultsExact(md, init, d);
      if exists t :: t in terms && md.columns[t].kind.Categorical? && d == DefaultDirective(md, t) {
        var t :| t in terms && md.columns[t].kind.Categorical? && d == DefaultDirective(md, t);
        if t in init {
          assert d in CategoricalDefaults(md, init);
        }
      }
    }
  }

  /** The defaults appended after validation: one per term whose column got no directive, in term order. */
  function MissingDefaults(md: Metadata, terms: seq<ColumnName>, columns: seq<ColumnName>): seq<string>
    requires md.Valid() && forall t :: t in terms ==> t in md.columns
    decreases |terms|
  {
    if terms == [] then []
    else
      var last := terms[|terms| - 1];
      MissingDefaults(md, terms[..|terms| - 1], columns)
        + (if last !in columns then [DefaultDirective(md, last)] else [])
  }

  /**
   * The second defaulting pass makes the default of each term that got
   * no directive, numeric terms included, and nothing else.
   */
  lemma {:induction false} MissingDefaultsExact(md: Metadata, terms: seq<ColumnName>, columns: seq<ColumnName>, d: string)
    requires md.Valid() && forall t :: t in terms ==> t in md.columns
    ensures d in MissingDefaults(md, terms, columns)
      <==> exists t :: t in terms && t !in columns && d == DefaultDirective(md, t)
    decreases |terms|
  {
    if terms != [] {
      var init := terms[..|terms| - 1];
      assert terms == init + [terms[|terms| - 1]];
      MissingDefaultsExact(md, init, columns, d);
      if exists t :: t in terms && t !in columns && d == DefaultDirective(md, t) {
        var t :| t in terms && t !in columns && d == DefaultDirective(md, t);
        if t in init {
          assert d in MissingDefaults(md, init, columns);
        }
      }
    }
  }

  /** The first defaulting pass, on a new list. */
  method FirstPassDefaults(md: Metadata, terms: seq<ColumnName>) returns (levels: DirectiveList)
    requires md.Valid() && forall t :: t in terms ==> t in md.columns
    ensures fresh(levels)
    ensures levels.items == CategoricalDefaults(md, terms)
  {
    levels := new DirectiveList([]);
    var i := 0;
    while i < |terms|
      invariant 0 <= i <= |terms|
      invariant fresh(levels)
      invariant levels.items == CategoricalDefaults(md, terms[..i])
    {
      assert terms[..i + 1][..i] == terms[..i];
      if md.columns[terms[i]].kind.Categorical? {
        levels := AppendDefault(md, terms[i], levels);
      }
      i := i + 1;
    }
    assert terms[..i] == terms;
  }

  /** The second defaulting pass: appends to the list in place. */
  method AddMissingDefaults(md: Metadata, terms: seq<ColumnName>, columns: seq<ColumnName>, levels: DirectiveList)
    requires md.Valid() && forall t :: t in terms ==> t in md.columns
    modifies levels
    ensures levels.items == old(levels.items) + MissingDefaults(md, terms, columns)
  {
    var i := 0;
    while i < |terms|
      invariant 0 <= i <= |terms|
      invariant levels.items == old(levels.items) + MissingDefaults(md, terms[..i], columns)
    {
      assert terms[..i + 1][..i] == terms[..i];
      if terms[i] !in columns {
        var same := AppendDefault(md, terms[i], levels);
      }
      i := i + 1;
    }
    assert terms[..i] == terms;
  }

  /**
   * After both passes every formula term is covered: its column received
   * a validated directive, or its default directive was appended.
   */
  lemma EveryTermCovered(ctx: Context, given: seq<string>, columns: seq<ColumnName>, t: ColumnName)
    requires ctx.md.Valid() && forall u :: u in ctx.terms ==> u in ctx.md.columns
    requires ValidateAll(ctx, [], given) == Success(columns)
    requires t in ctx.terms
    ensures (exists k :: 0 <= k < |given| && Accepted(ctx, given[k], t))
      || DefaultDirective(ctx.md, t) in MissingDefaults(ctx.md, ctx.terms, columns)
  {
    ValidateAllAccepted(ctx, [], given, columns);
    MissingDefaultsExact(ctx.md, ctx.terms, columns, DefaultDirective(ctx.md, t));
    if t in columns {
      var k :| 0 <= k < |columns| && columns[k] == t;
      assert Accepted(ctx, given[k], columns[0 + k]);
    }
  }

  /** How the caller passes `reference_levels`: not at all, as one string, or as a list object. */
  datatype ReferenceLevelsArg = NotGiven | Single(directive: string) | Given(list: DirectiveList)

  /** The list object the front end may grow in place. */
  function CallerList(arg: ReferenceLevelsArg): set<object>
  {
    if arg.Given? then {arg.list} else {}
  }

  /** The directives the loop validates: the categorical defaults, the one string, or the caller's list. */
  function InitialDirectives(md: Metadata, terms: seq<ColumnName>, arg: ReferenceLevelsArg): seq<string>
    requires md.Valid() && forall t :: t in terms ==> t in md.columns
    reads CallerList(arg)
  {
    match arg
    case NotGiven => CategoricalDefaults(md, terms)
    case Single(d) => [d]
    case Given(list) => list.items
  }

  /** What `_ancombc` passes on to R besides the table and the metadata. */
  datatype Prepared = Prepared(columnTypes: map<ColumnName, string>, referenceLevels: seq<string>)

  /**
   * The checks of `_ancombc` before the directive loop, in source order:
   * column types, sample coverage, formula parse, formula terms. The
   * first that fails raises; when all pass, the column tags and the
   * formula terms are returned.
   */
  method CheckInputs(md: Metadata, tableIds: set<SampleId>, formula: ParseNode)
    returns (r: Result<(map<ColumnName, string>, seq<ColumnName>), Error>)
    requires md.Valid()
    ensures (r.Failure? && r.error.UnexpectedColumnType?) <==> !md.KindsKnown()
    ensures r.Failure? && r.error.UnexpectedColumnType? ==>
      exists k :: (0 <= k < |md.names|
        && md.columns[md.names[k]].kind.Unrecognized?
        && r.error == UnexpectedColumnType(md.columns[md.names[k]].kind.name)
        && forall j :: 0 <= j < k ==> !md.columns[md.names[j]].kind.Unrecognized?)
    ensures md.KindsKnown() && !(tableIds <= md.IdSet()) ==>
      r == Failure(SamplesNotInMetadata(tableIds - md.IdSet()))
    ensures md.KindsKnown() && tableIds <= md.IdSet() && LeafCollector(formula).None? ==>
      r == Failure(ShortFormulaList)
    ensures md.KindsKnown() && tableIds <= md.IdSet() && LeafCollector(formula).Some?
      && (exists t :: t in LeafCollector(formula).value && t !in md.columns)
      ==> var terms := LeafCollector(formula).value;
      exists k :: (0 <= k < |terms|
        && terms[k] !in md.columns && r == Failure(ColumnNotFound(terms[k]))
        && forall j :: 0 <= j < k ==> terms[j] in md.columns)
    ensures r.Success? <==>
      && md.KindsKnown() && tableIds <= md.IdSet() && LeafCollector(formula).Some?
      && (forall t :: t in LeafCollector(formula).value ==> t in md.columns)
    ensures r.Success? ==>
      && r.value.1 == LeafCollector(formula).value
      && r.value.0.Keys == md.columns.Keys
      && forall c :: c in r.value.0 ==>
        && (r.value.0[c] == NumericTag <==> md.columns[c].kind.Numeric?)
        && (r.value.0[c] == CategoricalTag <==> md.columns[c].kind.Categorical?)
  {
    var columnTypes := ColumnTypes(md);
    if columnTypes.Failure? {
      return Failure(columnTypes.error);
    }
    var missing := MissingSamples(md, tableIds);
    if missing != {} {
      return Failure(SamplesNotInMetadata(missing));
    }
    var parsed := LeafCollector(formula);
    if parsed.None? {
      return Failure(ShortFormulaList);
    }
    var terms := parsed.value;
    var checked := CheckFormulaTerms(md, terms);
    if checked.Failure? {
      ghost var k :| 0 <= k < |terms| && terms[k] !in md.columns && checked.error == ColumnNotFound(terms[k])
        && forall j :: 0 <= j < k ==> terms[j] in md.columns;
      assert terms == LeafCollector(formula).value;
      return Failure(checked.error);
    }
    return Success((columnTypes.value, terms));
  }

  /**
   * The front end of `_ancombc`, up to the R call: column types, sample
   * coverage, formula terms, directive validation and the defaults, with
   * each check raising before the next is made.
   */
  method PrepareAncombc(md: Metadata, tableIds: set<SampleId>, formula: ParseNode, arg: ReferenceLevelsArg)
    returns (r: Result<Prepared, Error>)
    requires md.Valid()
    modifies CallerList(arg)
    ensures (r.Failure? && r.error.UnexpectedColumnType?) <==> !md.KindsKnown()
    ensures r.Failure? && r.error.UnexpectedColumnType? ==>
      exists k :: (0 <= k < |md.names|
        && md.columns[md.names[k]].kind.Unrecognized?
        && r.error == UnexpectedColumnType(md.columns[md.names[k]].kind.name)
        && forall j :: 0 <= j < k ==> !md.columns[md.names[j]].kind.Unrecognized?)
    ensures md.KindsKnown() && !(tableIds <= md.IdSet()) ==>
      r == Failure(SamplesNotInMetadata(tableIds - md.IdSet()))
    ensures md.KindsKnown() && tableIds <= md.IdSet() && LeafCollector(formula).None? ==>
      r == Failure(ShortFormulaList)
    ensures md.KindsKnown() && tableIds <= md.IdSet() && LeafCollector(formula).Some?
      && (exists t :: t in LeafCollector(formula).value && t !in md.columns)
      ==> var terms := LeafCollector(formula).value;
      exists k :: (0 <= k < |terms|
        && terms[k] !in md.columns && r == Failure(ColumnNotFound(terms[k]))
        && forall j :: 0 <= j < k ==> terms[j] in md.columns)
    ensures md.KindsKnown() && tableIds <= md.IdSet() && LeafCollector(formula).Some?
      && (forall t :: t in LeafCollector(formula).value ==> t in md.columns)
      ==> var terms := LeafCollector(formula).value;
      var given := old(InitialDirectives(md, terms, arg));
      var validated := ValidateAll(Context(md, tableIds, terms), [], given);
      && (validated.Failure? ==> r == Failure(validated.error))
      && (validated.Success? ==>
        r.Success? && r.value.referenceLevels == given + MissingDefaults(md, terms, validated.value))
    ensures r.Success? ==>
      && r.value.columnTypes.Keys == md.columns.Keys
      && forall c :: c in r.value.columnTypes ==>
        && (r.value.columnTypes[c] == NumericTag <==> md.columns[c].kind.Numeric?)
        && (r.value.columnTypes[c] == CategoricalTag <==> md.columns[c].kind.Categorical?)
    ensures arg.Given? ==> arg.list.items == if r.Success? then r.value.referenceLevels else old(arg.list.items)
  {
    var inputs := CheckInputs(md, tableIds, formula);
    if inputs.Failure? {
      return Failure(inputs.error);
    }
    var (columnTypes, terms) := inputs.value;
    var levels: DirectiveList;
    match arg {
      case NotGiven =>
        levels := FirstPassDefaults(md, terms);
      case Single(d) =>
        levels := new DirectiveList([d]);
      case Given(list) =>
        levels := list;
    }
    var given := levels.items;
    assert given == old(InitialDirectives(md, terms, arg));
    var ctx := Context(md, tableIds, terms);
    var validated := ValidateDirectives(ctx, given);
    if validated.Failure? {
      return Failure(validated.error);
    }
    AddMissingDefaults(md, terms, validated.value, levels);
    return Success(Prepared(columnTypes, levels.items));
  }
}
