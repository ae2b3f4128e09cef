# ANCOM-BC reference-level front end

A Dafny model of the checks that q2-composition's two ANCOM-BC wrappers run
before they hand a feature table and sample metadata to R.

**`_ancombc`** (module `Ancombc`) does the following, in this order:

1. It tags every metadata column `"numeric"` or `"categorical"`. Any other
   column type raises `TypeError`.
2. It raises `KeyError` with the set difference when some table sample is
   missing from the metadata.
3. It reads the formula's variable names off the parse tree
   (`_leaf_collector`, module `FormulaTerms`). It then looks up each one
   as a metadata column.
4. When no `reference_levels` were given, it builds one default directive
   per categorical term. A single string is wrapped into a list.
5. It checks every `column::value` directive:
   - the directive is split on its first `::`;
   - the column must not repeat an earlier directive's column;
   - the column must be in the metadata and must not be numeric;
   - the value must occur in the column;
   - the column must be a formula term;
   - some sample of the table must carry the value.
6. It appends a default `term::<smallest value>` for every term that got
   no directive. When the caller passed a list, that list is grown in place.

**The ANCOM-BC2 wrapper** (module `Ancombc2`) splits each directive on
every `::` and accepts exactly two fields. `_convert_metadata` dispatches
on each column's type, then walks the directives with a `columns_seen`
list and rejects a repeated column.

Its R calls (`make_names`, `as_factor`, `as_numeric`, `relevel`) are
opaque. Their results are never written back, so the frame it returns is
the unconverted metadata. A directive naming a column that the metadata
lacks is not rejected there: the message is built but never raised.
Module `DirectiveParsers` relates the two directive parsers.

Supporting modules:
- `Wrappers` has `Option` and `Result`. `Failure` stands for a raised exception.
- `Strings` has the `::` search and Python's string order.
- `QiimeMetadata` is the metadata value: sample IDs, column names, and per
  column a kind and one value per sample.

The two wrappers read directives differently. `_ancombc` splits on the
first `::` only, so a value may contain `::`. The ANCOM-BC2 parser rejects
any directive with more than one `::`. `_convert_metadata` checks only a
directive's syntax and repeated columns, and it discards the releveled
column.

## Model

| member | source | states |
|---|---|---|
| FormulaTerms.LeafCollector | q2_composition/_ancombc.py:65-72 | every name collected from a parse tree is one of its tokens; a list with fewer than three items is the `IndexError` case |
| FormulaTerms.LeafCollectorInOrder | q2_composition/_ancombc.py:65-72 | on a tree of `[operator, left, right]` lists the collector returns exactly the tree's tokens in left-to-right order, so the operator is never collected and no leaf is lost or repeated |
| Ancombc.ColumnTypes | q2_composition/_ancombc.py:93-104 | succeeds iff every column is numeric or categorical; the map then covers exactly the metadata's columns and tags each `"numeric"` iff it is numeric and `"categorical"` iff it is categorical; otherwise the error names the type of the first offending column in metadata order |
| Ancombc.MissingSamples | q2_composition/_ancombc.py:108-117 | the reported IDs are exactly the table IDs absent from the metadata, and they are empty iff the table's IDs are a subset of the metadata's |
| Ancombc.CheckFormulaTerms | q2_composition/_ancombc.py:119-122 | passes iff every formula term is a metadata column; otherwise it fails on the first term that is not one |
| Ancombc.SplitFirst | q2_composition/_ancombc.py:140-148 | no `::` gives the too-few-separators case; otherwise column + `::` + value rebuilds the directive, and the column neither holds `::` nor ends in `:`, which fixes the split at the first `::` |
| Ancombc.SplitFirstOfJoin | q2_composition/_ancombc.py:140-148 | `column::value` splits back into that column and value iff the column holds no `::` and does not end in `:`; the value may hold any number of `::` |
| Ancombc.CheckDirective | q2_composition/_ancombc.py:140-218 | a directive is accepted iff it splits, its column is new, in the metadata, not numeric and a formula term, its value occurs in the column and some table sample carries it; an accepted directive contributes its column; otherwise it raises the error of the first failed check, in source order: no `::` (`ValueError`), repeated column (`ValueError`), column not in the metadata (`ValueError`, with the `:` hint), numeric column (`TypeError`), value absent from the column (`ValueError`, with the `:` hint), column not a formula term, value on no table sample |
| Ancombc.ValidateAll | q2_composition/_ancombc.py:138-218 | the directive loop raises only directive errors |
| Ancombc.ValidateAllAccepted | q2_composition/_ancombc.py:150-218 | after the loop every directive is accepted and `reference_level_columns` holds their columns in directive order, none repeating an earlier one |
| Ancombc.AcceptedColumnsDistinct | q2_composition/_ancombc.py:150-159 | starting from no column, the loop collects one column per directive and all of them are distinct |
| Ancombc.ValidateAllRejected | q2_composition/_ancombc.py:138-218 | when the loop raises, it raises the error of the first failing directive, all earlier ones having passed |
| Ancombc.ValidateAllComplete | q2_composition/_ancombc.py:138-218 | directives that all split, name distinct new columns and are each admissible pass the loop |
| Ancombc.ValidateDirectives | q2_composition/_ancombc.py:138-218 | the imperative loop computes what the directive-loop specification gives; on success the columns are one per directive and distinct |
| Ancombc.DefaultDirective | q2_composition/_ancombc.py:75-83 | a default is `term::v` where `v` occurs in the term's column and no value of that column sorts below it |
| Ancombc.DefaultDirectiveSplits | q2_composition/_ancombc.py:80 | a default reads back as its term and smallest value iff the term holds no `::` and does not end in `:` |
| Ancombc.DirectiveList.Append | q2_composition/_ancombc.py:81 | the list's new contents are its old contents followed by the directive |
| Ancombc.AppendDefault | q2_composition/_ancombc.py:75-83 | appends the term's default directive to the given list in place and returns that same list |
| Ancombc.CategoricalDefaultsExact | q2_composition/_ancombc.py:124-133 | the first pass produces the default of each categorical term and nothing else |
| Ancombc.FirstPassDefaults | q2_composition/_ancombc.py:124-133 | the loop builds a fresh list holding one default per categorical term, in term order |
| Ancombc.MissingDefaultsExact | q2_composition/_ancombc.py:220-227 | the second pass produces the default of each term that got no directive, numeric terms included, and nothing else |
| Ancombc.AddMissingDefaults | q2_composition/_ancombc.py:220-227 | the list becomes its old contents followed by the missing defaults, so earlier directives are kept unchanged and in order |
| Ancombc.EveryTermCovered | q2_composition/_ancombc.py:220-227 | after both passes every formula term is the column of an accepted directive or has its default appended |
| Ancombc.CheckInputs | q2_composition/_ancombc.py:93-122 | the checks before the directive loop, in source order, each raising before the next: an unknown column type (the first offending column in metadata order), table samples missing from the metadata (exactly those IDs), a formula too short to parse, a term that is not a column (the first such term); it passes iff none applies, and then returns the formula's terms and a tag map over exactly the metadata's columns, `"numeric"` iff numeric and `"categorical"` iff categorical |
| Ancombc.PrepareAncombc | q2_composition/_ancombc.py:89-227 | runs the checks in source order, each raising before the next, with the same errors as `CheckInputs` (first unknown column type, missing samples, short formula, first term that is not a column) and then the directive loop's error; on success it returns a tag map over exactly the metadata's columns, `"numeric"` iff numeric and `"categorical"` iff categorical, and the directives are the given ones followed by the missing defaults; a caller's list ends up holding exactly those directives |
| QiimeMetadata.Metadata.SamplesWithValue | q2_composition/_ancombc.py:204 | a sample is returned iff its value in the column is the given value |
| QiimeMetadata.Metadata.SmallestValue | q2_composition/_ancombc.py:77-79 | the first value after sorting the column: it occurs in the column and sorts at or below every value of it |
| Strings.Smallest | q2_composition/_ancombc.py:77-79 | the least element of a non-empty list of strings in Python's string order |
| Strings.SmallestUnique | q2_composition/_ancombc.py:77-79 | any element that sorts at or below all others is the smallest, so sample order cannot change a default |
| Strings.FindSep | q2_composition/_ancombc.py:141 | the first `::` at or after a position, or none when there is none |
| Strings.FirstSepOfJoin | q2_composition/_ancombc.py:141 | in `c::v` the first `::` is the written one iff `c` holds no `::` and does not end in `:` |
| Ancombc2.SplitAll | q2_composition/_ancombc2.py:166 | `split('::')` gives at least one field; the fields joined with `::` rebuild the input; no field holds `::`; there is more than one field iff the input holds `::` |
| Ancombc2.ExtractColumnReferenceLevel | q2_composition/_ancombc2.py:146-184 | on success column + `::` + level rebuilds the directive and neither part holds `::`; the no-level error is raised iff there is no `::` at all, otherwise the too-many error |
| Ancombc2.ExtractOfJoin | q2_composition/_ancombc2.py:166-184 | `column::level` parses back into exactly that pair iff neither part holds `::` and the column does not end in `:` |
| Ancombc2.EmptySidesAccepted | q2_composition/_ancombc2.py:166-184 | there is no non-emptiness check: `::level`, `column::` and `::` are accepted, with the empty side taken as the empty string (given that the other side has no `::` and the column does not end in `:`) |
| Ancombc2.ExtractSucceedsIff | q2_composition/_ancombc2.py:166-184 | the strict parser succeeds iff the directive holds exactly one `::` between a column and a level, and then returns exactly that column and level |
| Ancombc2.RelevelStep | q2_composition/_ancombc2.py:118-136 | one pass of the loop raises a parse error of that directive or the repeated-column error, and an accepted directive contributes a column not seen before |
| Ancombc2.RelevelStepShape | q2_composition/_ancombc2.py:118-136 | a directive with no `::` raises the no-level error and one with several `::` the too-many error, whatever columns were seen, so the parse errors come before the repeated-column check; a directive `c::l` with one `::` raises the repeated-column error iff `c` was seen and otherwise contributes `c`; the metadata plays no part |
| Ancombc2.RelevelAllColumns | q2_composition/_ancombc2.py:116-136 | after the loop `columns_seen` has grown by the parsed column of each directive, in order, none repeating an earlier one |
| Ancombc2.RelevelAllSucceedsIff | q2_composition/_ancombc2.py:116-136 | the relevel loop passes iff every directive parses and no two name the same column; `columns_seen` is then duplicate-free and in directive order |
| Ancombc2.RelevelAllComplete | q2_composition/_ancombc2.py:116-136 | directives that parse to columns distinct from each other and from those already seen pass the loop |
| Ancombc2.RelevelAllFirstError | q2_composition/_ancombc2.py:118-134 | a raising loop raises the error of the first failing directive, every earlier one having passed |
| Ancombc2.SingleDirectiveAccepted | q2_composition/_ancombc2.py:123-127 | a well-formed directive passes the loop whatever its column, even one absent from the metadata |
| Ancombc2.ConvertMetadata | q2_composition/_ancombc2.py:93-143 | fails with the type error iff some column is neither categorical nor numeric, naming the first such column; with no directives it cannot fail otherwise; with directives the outcome is the relevel loop's; a returned frame is the metadata unchanged, not releveled |
| DirectiveParsers.StrictIsFirstSplitWithPlainValue | q2_composition/_ancombc2.py:166-182 | the two-field parser accepts a directive iff the first-`::` split succeeds and leaves a value without `::`, and then agrees with it; it reports too many levels iff that value still holds `::` |
| DirectiveParsers.NestedSeparatorExample | q2_composition/_ancombc2.py:175-182 | `a::b::c` is column `a` with value `b::c` for `_ancombc` but is rejected by the ANCOM-BC2 parser |

## Left out

- Writing the table and metadata to temporary files, building the R command line and running it (`run_commands`, lines 21-32 and 229-261 of `_ancombc.py`) are I/O. So are the JSON encoding of the column tags and the `ancombc` wrapper that only forwards its arguments.
- The formula parser (`_parse_terms`) is a foreign library. The model takes its output tree as input.
- The rpy2 conversions and every R call are foreign. This covers `_create_phyloseq_object`, `as_matrix`, `otu_table`, `sample_data`, `phyloseq`, `make_names`, `as_factor`, `as_numeric` and `relevel`. An error that R itself might raise inside these calls is not modelled.
- Ancombc.DefaultDirective: the smallest value is taken in Python's order on the values' text. For a numeric term this is not pandas' numeric sort. Missing (NaN) values and mixed types are not modelled.
- QiimeMetadata.Metadata.SmallestValue: numeric column values are kept as text, so the same text-order caveat applies.
- Error messages are modelled by kind and by the identifier they carry, not by their text. The duplicate-directive message of `_ancombc` prints a stale loop variable. The `:` hints are kept as a flag.
- The scalar parameters (`prv_cut`, `lib_cut`, `tol`, `max_iter`, `alpha`, `conserve`, `p_adj_method`) are only passed to R on its command line.
- The `ancombc2` entry point is not part of this model. Its source file defines no such function. Result slicing, column disambiguation and structural-zero reformatting are therefore absent.
- Plugin registration, file formats, transformers and type declarations hold no logic to model.
