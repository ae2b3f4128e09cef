/**
 * The front end of the ANCOM-BC2 wrapper that runs before the metadata is
 * handed to R: the strict `column::level` parser
 * (`_extract_column_reference_level`) and the checks of
 * `_convert_metadata` (a type dispatch over the columns, then a pass over
 * the reference-level directives that rejects a repeated column).
 *
 * The R calls (`make_names`, `as_factor`, `as_numeric`, `relevel`) are
 * opaque here. Their results are bound to a local and never stored back
 * into the frame, so the frame `_convert_metadata` returns is the plain
 * conversion of the metadata: neither coerced nor releveled.
 */
module Ancombc2 {
  import opened Wrappers
  import opened Strings
  import opened QiimeMetadata

  /** The `ValueError`s raised before the R calls. */
  datatype Error =
    /** A metadata column of a type other than categorical or numeric. */
    | UnrecognizedColumnType(kind: string)
    /** A directive with no `::`: fewer than two fields. */
    | NoReferenceLevel(directive: string)
    /** A directive with more than one `::`: more than two fields. */
    | TooManyReferenceLevels(directive: string)
    /** A second directive for a column already seen. */
    | RepeatedColumn(column: ColumnName)

  /** `fields[0] + "::" + fields[1] + "::" + ...`: what `"::".join(fields)` gives. */
  function Joined(fields: seq<string>): string
    requires |fields| >= 1
  {
    if |fields| == 1 then fields[0] else fields[0] + Separator + Joined(fields[1..])
  }

  /**
   * `s.split('::')`: the pieces between the separators, found left to
   * right without overlap. The pieces join back into `s`; none holds a
   * `::`, none but the last ends in `:` (else a `::` would have started
   * one character earlier), and there is more than one piece exactly
   * when `s` holds a `::`.
   */
  function SplitAll(s: string): (fields: seq<string>)
    decreases |s|
    ensures |fields| >= 1
    ensures Joined(fields) == s
    ensures forall k :: 0 <= k < |fields| ==> !HasSep(fields[k])
    ensures forall k :: 0 <= k < |fields| - 1 ==> !EndsWithColon(fields[k])
    ensures |fields| == 1 <==> !HasSep(s)
  {
    match FindSep(s, 0)
    case None =>
      NoSepInSuffix(s, 0);
      assert s[0..] == s;
      [s]
    case Some(i) =>
      NoSepInSlice(s, 0, i);
      assert SepAt(s, i);
      var rest := SplitAll(s[i + 2..]);
      var fields := [s[..i]] + rest;
      assert fields[1..] == rest;
      assert s == s[..i] + Separator + s[i + 2..];
      assert !EndsWithColon(s[..i]) by {
        if EndsWithColon(s[..i]) {
          assert SepAt(s, i - 1);
        }
      }
      forall k | 0 <= k < |fields| ensures !HasSep(fields[k]) {
        if k > 0 {
          assert fields[k] == rest[k - 1];
        }
      }
      forall k | 0 <= k < |fields| - 1 ensures !EndsWithColon(fields[k]) {
        if k > 0 {
          assert fields[k] == rest[k - 1];
        }
      }
      fields
  }

  /**
   * `_extract_column_reference_level`: split on every `::` and accept
   * exactly two fields. On success the column and the level join back
   * into the directive and neither holds a `::`; on failure the error
   * says whether there was no separator or more than one.
   */
  function ExtractColumnReferenceLevel(d: string): (r: Result<(ColumnName, string), Error>)
    ensures r.Success? ==> r.value.0 + Separator + r.value.1 == d
    ensures r.Success? ==> !HasSep(r.value.0) && !HasSep(r.value.1) && !EndsWithColon(r.value.0)
    ensures r.Failure? ==> r.error == NoReferenceLevel(d) || r.error == TooManyReferenceLevels(d)
    ensures r == Failure(NoReferenceLevel(d)) <==> !HasSep(d)
  {
    var fields := SplitAll(d);
    if |fields| < 2 then Failure(NoReferenceLevel(d))
    else if |fields| > 2 then Failure(TooManyReferenceLevels(d))
    else
      assert fields[1..] == [fields[1]];
      Success((fields[0], fields[1]))
  }

  /**
   * The converse round trip: `column::level` parses back into `column`
   * and `level` exactly when neither holds a `::` and the column does not
   * end in `:`. Empty columns and levels are accepted.
   */
  lemma ExtractOfJoin(column: ColumnName, level: string)
    ensures ExtractColumnReferenceLevel(column + Separator + level) == Success((column, level))
      <==> !HasSep(column) && !EndsWithColon(column) && !HasSep(level)
  {
    var d := column + Separator + level;
    if !HasSep(column) && !EndsWithColon(column) && !HasSep(level) {
      FirstSepOfJoin(column, level);
      assert d[..|column|] == column && d[|column| + 2..] == level;
      assert SplitAll(level) == [level] by {
        var rest := SplitAll(level);
        assert |rest| == 1;
      }
      assert SplitAll(d) == [column, level];
    }
  }

  /**
   * Nothing checks that either side is non-empty: `::level`, `column::`
   * and `::` itself are accepted, each side being taken as it stands.
   */
  lemma {:induction false} EmptySidesAccepted(column: ColumnName, level: string)
    ensures !HasSep(level) ==> ExtractColumnReferenceLevel(Separator + level) == Success(("", level))
    ensures !HasSep(column) && !EndsWithColon(column) ==>
      ExtractColumnReferenceLevel(column + Separator) == Success((column, ""))
    ensures ExtractColumnReferenceLevel(Separator) == Success(("", ""))
  {
    assert !HasSep("") && !EndsWithColon("");
    ExtractOfJoin("", level);
    assert "" + Separator + level == Separator + level;
    ExtractOfJoin(column, "");
    assert column + Separator + "" == column + Separator;
    ExtractOfJoin("", "");
    assert "" + Separator + "" == Separator;
  }

  /**
   * The strict parser succeeds exactly on directives with one `::`, and
   * then returns the column and level they are made of.
   */
  lemma ExtractSucceedsIff(d: string)
    ensures ExtractColumnReferenceLevel(d).Success? <==> HasOneSep(d)
    ensures forall c, l :: JoinsPlain(d, c, l) ==> ExtractColumnReferenceLevel(d) == Success((c, l))
  {
    forall c, l | JoinsPlain(d, c, l) ensures ExtractColumnReferenceLevel(d) == Success((c, l)) {
      ExtractOfJoin(c, l);
    }
    var r := ExtractColumnReferenceLevel(d);
    if r.Success? {
      assert JoinsPlain(d, r.value.0, r.value.1);
    }
  }

  /**
   * One pass of the relevel loop with `columns_seen` so far: the parse
   * error, or the repeated-column error, or a column not seen before.
   */
  function RelevelStep(seen: seq<ColumnName>, d: string): (r: Result<ColumnName, Error>)
    ensures r.Success? ==> r.value !in seen
    ensures r.Failure? ==> r.error in {NoReferenceLevel(d), TooManyReferenceLevels(d)} || r.error.RepeatedColumn?
  {
    match ExtractColumnReferenceLevel(d)
    case Failure(e) => Failure(e)
    case Success((column, _)) =>
      if column in seen then Failure(RepeatedColumn(column)) else Success(column)
  }

  /**
   * The step by the directive's shape. A directive with no `::` raises the
   * no-level error and one with several `::` the too-many error, whatever
   * `seen` holds, so the parse errors come before the repeated-column
   * check. A directive `c::l` with one `::` raises the repeated-column
   * error iff `c` was seen, and otherwise contributes `c`. Whether `c` is
   * in the metadata plays no part (the message for it is built but not
   * raised).
   */
  lemma RelevelStepShape(seen: seq<ColumnName>, d: string)
    ensures RelevelStep(seen, d) == Failure(NoReferenceLevel(d)) <==> !HasSep(d)
    ensures RelevelStep(seen, d) == Failure(TooManyReferenceLevels(d)) <==> HasSep(d) && !HasOneSep(d)
    ensures forall c, l :: JoinsPlain(d, c, l) ==>
      && (RelevelStep(seen, d) == Success(c) <==> c !in seen)
      && (RelevelStep(seen, d) == Failure(RepeatedColumn(c)) <==> c in seen)
  {
    ExtractSucceedsIff(d);
  }

  /** The relevel loop as a whole: the final `columns_seen`, or the first error. */
  function RelevelAll(seen: seq<ColumnName>, ds: seq<string>): Result<seq<ColumnName>, Error>
    decreases |ds|
  {
    if ds == [] then Success(seen)
    else
      match RelevelStep(seen, ds[0])
      case Failure(e) => Failure(e)
      case Success(column) => RelevelAll(seen + [column], ds[1..])
  }

  /**
   * A passing loop accepted its first directive: that directive parses to
   * a column not seen before, and the rest of the loop starts from
   * `seen` grown by that column.
   */
  lemma RelevelAllFirst(seen: seq<ColumnName>, ds: seq<string>, columns: seq<ColumnName>)
    requires ds != [] && RelevelAll(seen, ds) == Success(columns)
    ensures ExtractColumnReferenceLevel(ds[0]).Success?
    ensures ExtractColumnReferenceLevel(ds[0]).value.0 !in seen
    ensures RelevelAll(seen + [ExtractColumnReferenceLevel(ds[0]).value.0], ds[1..]) == Success(columns)
  {
    var d := ds[0];
    assert RelevelStep(seen, d).Success?;
    RelevelStepShape(seen, d);
    ExtractSucceedsIff(d);
    var c, l :| JoinsPlain(d, c, l);
    assert RelevelStep(seen, d) == Success(c);
  }

  /**
   * `columns` is `seen` followed by one column per directive of `ds`, in
   * directive order: the `k`-th directive parses to the `k`-th new column,
   * and that column occurs nowhere before it.
   */
  ghost predicate ParsedRun(seen: seq<ColumnName>, ds: seq<string>, columns: seq<ColumnName>)
  {
    && |columns| == |seen| + |ds| && columns[..|seen|] == seen
    && forall k :: 0 <= k < |ds| ==>
         && ExtractColumnReferenceLevel(ds[k]).Success?
         && ExtractColumnReferenceLevel(ds[k]).value.0 == columns[|seen| + k]
         && columns[|seen| + k] !in columns[..|seen| + k]
  }

  /**
   * After the loop `columns_seen` has grown by one column per directive,
   * each the column that directive parses to, in directive order, and
   * none repeated.
   */
  lemma {:induction false} RelevelAllColumns(seen: seq<ColumnName>, ds: seq<string>, columns: seq<ColumnName>)
    requires RelevelAll(seen, ds) == Success(columns)
    ensures ParsedRun(seen, ds, columns)
    decreases |ds|
  {
    if ds == [] {
      assert columns == seen;
    } else {
      RelevelAllFirst(seen, ds, columns);
      var column := ExtractColumnReferenceLevel(ds[0]).value.0;
      var seen', tail := seen + [column], ds[1..];
      RelevelAllColumns(seen', tail, columns);
      ColumnsShift(seen, column, seen', ds, tail, columns);
    }
  }

  /** The bookkeeping of one step of `RelevelAllColumns`: the run for the tail gives the run for the whole. */
  lemma ColumnsShift(seen: seq<ColumnName>, column: ColumnName, seen': seq<ColumnName>,
                     ds: seq<string>, tail: seq<string>, columns: seq<ColumnName>)
    requires seen' == seen + [column] && ds != [] && tail == ds[1..]
    requires ExtractColumnReferenceLevel(ds[0]).Success? && ExtractColumnReferenceLevel(ds[0]).value.0 == column
    requires column !in seen
    requires ParsedRun(seen', tail, columns)
    ensures ParsedRun(seen, ds, columns)
  {
    assert columns[..|seen|] == columns[..|seen'|][..|seen|];
    forall k | 0 <= k < |ds|
      ensures && ExtractColumnReferenceLevel(ds[k]).Success?
              && ExtractColumnReferenceLevel(ds[k]).value.0 == columns[|seen| + k]
              && columns[|seen| + k] !in columns[..|seen| + k]
    {
      if k == 0 {
        assert columns[|seen|] == seen'[|seen|] == column;
      } else {
        assert tail[k - 1] == ds[k] && |seen'| + (k - 1) == |seen| + k;
        assert && ExtractColumnReferenceLevel(tail[k - 1]).Success?
               && ExtractColumnReferenceLevel(tail[k - 1]).value.0 == columns[|seen'| + (k - 1)]
               && columns[|seen'| + (k - 1)] !in columns[..|seen'| + (k - 1)];
      }
    }
  }

  /**
   * The relevel loop passes exactly when every directive has exactly one
   * `::` and no two directives name the same column; `columns_seen` then
   * lists those columns in directive order, without repeats.
   */
  lemma RelevelAllSucceedsIff(ds: seq<string>)
    ensures RelevelAll([], ds).Success? <==>
      && (forall k :: 0 <= k < |ds| ==> ExtractColumnReferenceLevel(ds[k]).Success?)
      && (forall i, j :: 0 <= i < j < |ds| ==>
            ExtractColumnReferenceLevel(ds[i]).value.0 != ExtractColumnReferenceLevel(ds[j]).value.0)
    ensures RelevelAll([], ds).Success? ==>
      var columns := RelevelAll([], ds).value;
      |columns| == |ds| && Distinct(columns)
      && forall k :: 0 <= k < |ds| ==> columns[k] == ExtractColumnReferenceLevel(ds[k]).value.0
  {
    if RelevelAll([], ds).Success? {
      var columns := RelevelAll([], ds).value;
      RelevelAllColumns([], ds, columns);
      forall i, j | 0 <= i < j < |columns| ensures columns[i] != columns[j] {
        assert ExtractColumnReferenceLevel(ds[j]).Success?
          && ExtractColumnReferenceLevel(ds[j]).value.0 == columns[0 + j]
          && columns[0 + j] !in columns[..0 + j];
        assert columns[..j][i] == columns[i];
      }
    }
    if && (forall k :: 0 <= k < |ds| ==> ExtractColumnReferenceLevel(ds[k]).Success?)
       && (forall i, j :: 0 <= i < j < |ds| ==>
             ExtractColumnReferenceLevel(ds[i]).value.0 != ExtractColumnReferenceLevel(ds[j]).value.0)
    {
      RelevelAllComplete([], ds);
    }
  }

  /** Directives that all parse, to columns distinct from each other and from `seen`, pass the loop. */
  lemma {:induction false} RelevelAllComplete(seen: seq<ColumnName>, ds: seq<string>)
    requires forall k :: 0 <= k < |ds| ==>
      ExtractColumnReferenceLevel(ds[k]).Success? && ExtractColumnReferenceLevel(ds[k]).value.0 !in seen
    requires forall i, j :: 0 <= i < j < |ds| ==>
      ExtractColumnReferenceLevel(ds[i]).value.0 != ExtractColumnReferenceLevel(ds[j]).value.0
    ensures RelevelAll(seen, ds).Success?
    decreases |ds|
  {
    if ds != [] {
      var column := ExtractColumnReferenceLevel(ds[0]).value.0;
      forall k | 0 <= k < |ds[1..]|
        ensures ExtractColumnReferenceLevel(ds[1..][k]).Success?
             && ExtractColumnReferenceLevel(ds[1..][k]).value.0 !in seen + [column]
      {
        assert ds[1..][k] == ds[k + 1];
      }
      forall i, j | 0 <= i < j < |ds[1..]|
        ensures ExtractColumnReferenceLevel(ds[1..][i]).value.0 != ExtractColumnReferenceLevel(ds[1..][j]).value.0
      {
        assert ds[1..][i] == ds[i + 1] && ds[1..][j] == ds[j + 1];
      }
      RelevelAllComplete(seen + [column], ds[1..]);
    }
  }

  /**
   * When the loop raises, it raises the error of the first directive that
   * fails, every directive before it having passed. So a malformed
   * directive raises its parse error even if its column was seen before.
   */
  lemma {:induction false} RelevelAllFirstError(seen: seq<ColumnName>, ds: seq<string>, e: Error)
    requires RelevelAll(seen, ds) == Failure(e)
    ensures exists k :: (0 <= k < |ds| && RelevelAll(seen, ds[..k]).Success?
      && RelevelStep(RelevelAll(seen, ds[..k]).value, ds[k]) == Failure(e))
    decreases |ds|
  {
    assert ds[..0] == [];
    var first := RelevelStep(seen, ds[0]);
    if first.Success? {
      var seen' := seen + [first.value];
      assert RelevelAll(seen', ds[1..]) == Failure(e);
      RelevelAllFirstError(seen', ds[1..], e);
      var k :| 0 <= k < |ds[1..]| && RelevelAll(seen', ds[1..][..k]).Success?
        && RelevelStep(RelevelAll(seen', ds[1..][..k]).value, ds[1..][k]) == Failure(e);
      RelevelAllPrefix(seen, ds, k);
      assert ds[k + 1] == ds[1..][k];
      assert 0 <= k + 1 < |ds| && RelevelAll(seen, ds[..k + 1]).Success?
        && RelevelStep(RelevelAll(seen, ds[..k + 1]).value, ds[k + 1]) == Failure(e);
    }
  }

  /** Running the loop on a prefix whose first directive passes runs the rest of that prefix after it. */
  lemma RelevelAllPrefix(seen: seq<ColumnName>, ds: seq<string>, k: nat)
    requires k < |ds| && RelevelStep(seen, ds[0]).Success?
    ensures RelevelAll(seen, ds[..k + 1]) == RelevelAll(seen + [RelevelStep(seen, ds[0]).value], ds[1..][..k])
  {
    assert ds[..k + 1][0] == ds[0] && ds[..k + 1][1..] == ds[1..][..k];
  }

  /**
   * A single well-formed directive passes the loop whatever its column,
   * even one the metadata does not have: nothing in the loop consults the
   * metadata.
   */
  lemma SingleDirectiveAccepted(column: ColumnName, level: string)
    requires !HasSep(column) && !EndsWithColon(column) && !HasSep(level)
    ensures RelevelAll([], [column + Separator + level]) == Success([column])
  {
    var d := column + Separator + level;
    ExtractOfJoin(column, level);
    assert RelevelStep([], d) == Success(column);
    assert [d][0] == d && [d][1..] == [];
    assert [] + [column] == [column];
    assert RelevelAll([], [d]) == RelevelAll([column], []);
  }

  /**
   * `_convert_metadata` up to the R calls. The column loop raises on the
   * first column, in metadata order, of an unrecognized type; with no
   * directives nothing else can fail; otherwise the outcome is that of
   * the relevel loop. The frame returned is the metadata as it came in:
   * the coerced and releveled columns are never written back.
   */
  method ConvertMetadata(md: Metadata, referenceLevels: Option<seq<string>>) returns (r: Result<Metadata, Error>)
    requires md.Valid()
    ensures (r.Failure? && r.error.UnrecognizedColumnType?) <==> !md.KindsKnown()
    ensures r.Failure? && r.error.UnrecognizedColumnType? ==>
      exists k :: (0 <= k < |md.names|
        && md.columns[md.names[k]].kind.Unrecognized?
        && r.error == UnrecognizedColumnType(md.columns[md.names[k]].kind.name)
        && forall j :: 0 <= j < k ==> !md.columns[md.names[j]].kind.Unrecognized?)
    ensures md.KindsKnown() && referenceLevels.None? ==> r == Success(md)
    ensures md.KindsKnown() && referenceLevels.Some? ==>
      match RelevelAll([], referenceLevels.value)
      case Success(_) => r == Success(md)
      case Failure(e) => r == Failure(e)
    ensures r.Success? ==> r.value == md
  {
    var i := 0;
    while i < |md.names|
      invariant 0 <= i <= |md.names|
      invariant forall j :: 0 <= j < i ==> !md.columns[md.names[j]].kind.Unrecognized?
    {
      match md.columns[md.names[i]].kind {
        case Categorical =>
        case Numeric =>
        case Unrecognized(kind) =>
          return Failure(UnrecognizedColumnType(kind));
      }
      i := i + 1;
    }
    assert md.KindsKnown() by {
      forall c | c in md.columns ensures !md.columns[c].kind.Unrecognized? {
        var j :| 0 <= j < |md.names| && md.names[j] == c;
      }
    }
    if referenceLevels.Some? {
      var ds := referenceLevels.value;
      var columnsSeen: seq<ColumnName> := [];
      var n := 0;
      while n < |ds|
        invariant 0 <= n <= |ds|
        invariant RelevelAll([], ds) == RelevelAll(columnsSeen, ds[n..])
      {
        assert ds[n..][0] == ds[n] && ds[n..][1..] == ds[n + 1..];
        var parsed := ExtractColumnReferenceLevel(ds[n]);
        if parsed.Failure? {
          return Failure(parsed.error);
        }
        var column := parsed.value.0;
        // A column missing from the metadata only gets a message, which is never raised.
        if column in columnsSeen {
          return Failure(RepeatedColumn(column));
        }
        columnsSeen := columnsSeen + [column];
        // `relevel` runs on a copy of the column and its result is dropped.
        n := n + 1;
      }
      assert ds[n..] == [];
    }
    return Success(md);
  }
}
