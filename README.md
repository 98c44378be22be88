# driven: the omics-to-constraint core, in Dafny

This project models the part of the `driven` package that turns omics
data into constraints on a genome-scale metabolic model, and proves
properties of that model. Two generations of the package live side by side
in the repository: the newer code under `src/driven/` and the older code
under `driven/`. Both are modelled where they differ.

Where the package's documentation or its evident intent disagrees with
the code, the model follows the code as written. It puts a corrected
definition beside the as-written one, and the rest of the model uses the
corrected one. Each such case is listed under "## Findings".

## What is modelled

- **Data containers.**
  - `Profile` holds the expression profile:
    - the shape check, the label and positional lookups, `to_dict` and `minmax`;
    - the p-value column names, the p-value getter, setter and deleter;
    - `from_data_frame`, the replicate collapse of `from_csv`, `differences` and `to_reaction_dict`.
  - `ExpressionProfile` is a class whose p-values the setter and the deleter replace. `differences` and `to_reaction_dict` are loops, proved against specification functions.
  - `LegacyProfile` holds what the older profile does differently.
  - `Fluxes` holds `FluxConstraints`, an immutable value: construction in both modes, lookup, iteration, equality and the `data_frame` round trip.
  - `Tables`, `Dicts` and `Text` hold the numpy, dictionary and string behaviour these containers rely on.
  - `Utils` holds `all_same` and `get_common_start`.
- **Gene rules.**
  - `Gpr` holds the rule tree and its evaluation under each policy (`or2max_and2min`, `or2sum_and2min`, raw).
  - `Arith` holds the sympy arithmetic those policies build, and a parser for the rewritten rule text.
  - `RuleText` holds the older text rewrites of `and`/`or` and where they part from the tree's meaning.
- **The cobra model.** `Metabolic` holds it: reactions, metabolites, the variables and constraints added to the optlang problem, and the objective. `Metabolic.Model` is a class with an undo log. A `with model:` block or a `TimeMachine` is a scope whose edits are replayed backwards on exit.
- **Algorithms.**
  - `Fastcc`, `Gimme` and `Imat` hold the newer FASTCC, GIMME and iMAT.
  - `Transcriptomics` holds the older GIMME and iMAT of `driven/flux_analysis/transcriptomics.py`.
  - `FluxAnalysisImat` holds the older iMAT of `driven/flux_analysis/imat.py`, which builds the newer iMAT's problem from the older reaction profile.
  - `Gim3e` holds GIM3E.
  - `Fluxomics` holds the measured-flux FBA of both generations and the exact-bound `c13.fba`.

  For each algorithm, the model states:
  - which reactions are classified;
  - which coefficients, variables and constraints are added;
  - what the objective becomes;
  - what the model looks like after the call.

  Solver answers are inputs.
- **Results.** `Results` holds the GIMME inconsistency scores, the distance and `trim_model`, the iMAT expression classes, and the activity, fold change and Manhattan distance of two flux distributions.
- **Objective fitting.**
  - `FitOperators` holds the binary and linear generators and variators. Random draws are an input stream.
  - `FitEvaluators` holds the essentiality-profile score and the two evaluators.
  - `FitOptimization` holds `evaluate`, `zero_one_bounder` (in place, on an array) and the strategy's construction.
- **Identifier mapping.** `Adapter` holds `clean_bigg_id`, `get_existing_metabolite`, `contains_carbon`, `find_metabolite_info` and `map_equation_to_bigg`. The MetaNetX tables are maps passed in.

Python exceptions become `Err(kind)` values of `Wrappers.Result`, naming the exception class.

## Model

| member | source | states |
|---|---|---|
| Utils.AllSame | src/driven/utils.py:35-38 | true exactly when every two elements are equal; vacuously true for an empty sequence |
| Utils.MinBool | driven/utils.py:25 | Python's `min` over booleans is true exactly when every flag is true |
| Utils.EqualsFirst | driven/utils.py:25 | one flag per element, each saying whether it equals the first |
| Utils.AllSameByMin | driven/utils.py:16-25 | the older `min(flags + [True])` form agrees with the newer `all(...)` on every input, the empty one included |
| Utils.MinLength | src/driven/utils.py:44 | `zip` stops at the shortest argument: no argument is shorter, and one has exactly that length |
| Utils.ZipAt | src/driven/utils.py:44 | the k-th tuple of `zip` holds the k-th element of every argument |
| Utils.FirstFalse | src/driven/utils.py:48 | `index(False)` is the first false position: every flag before it is true |
| Utils.MatchFlags | src/driven/utils.py:44-46 | one flag per zipped tuple, whether all its elements agree, then the `False` guard |
| Utils.LegacyMatchFlags | driven/utils.py:35-36 | the older flags have the same length and end with the guard |
| Utils.CommonStart | src/driven/utils.py:41-48 | IndexError exactly when there is no argument; otherwise a prefix of every argument that is either as long as the shortest one or followed by a disagreement |
| Utils.LegacyCommonStart | driven/utils.py:28-37 | the older function gives the same result as the newer one on every input |
| Utils.CommonStartLongest | src/driven/utils.py:41-48 | every common prefix of the arguments is a prefix of the result, so the result is the longest one |
| Utils.CommonStartAllAgree | src/driven/utils.py:45-48 | when the arguments agree wherever they are zipped, the guard makes the result as long as the shortest argument |
| Utils.CommonStartSingle | src/driven/utils.py:41-48 | a single argument is returned whole |
| Dicts.LastIndex | src/driven/data_sets/expression_profile.py:102-105 | an `enumerate` index dictionary holds a label exactly when it occurs, at its last occurrence |
| Dicts.Zip | src/driven/data_sets/expression_profile.py:376-377 | `dict(zip(keys, values))` has exactly the keys |
| Dicts.ZipLookup | src/driven/data_sets/expression_profile.py:376-377 | a key holds the value paired with its last occurrence |
| Dicts.ZipSnoc | src/driven/data_sets/expression_profile.py:308-309 | one more pair updates the dictionary with it |
| Tables.PyIndex | src/driven/data_sets/expression_profile.py:135 | Python accepts exactly the indices in [-n, n) and counts negative ones from the end; otherwise IndexError |
| Tables.SliceBound | src/driven/data_sets/expression_profile.py:135 | slice bounds are clamped into the axis; absent bounds take their default |
| Tables.SelectColumns | src/driven/data_sets/expression_profile.py:186-187 | `frame[cols].values` holds the chosen columns in the order asked for |
| Tables.HConcat | src/driven/data_sets/expression_profile.py:228-229 | `np.concatenate(axis=1)` puts the rows side by side |
| Tables.SelectLeft | src/driven/data_sets/expression_profile.py:228-229 | the first columns of a concatenation are the left array |
| Tables.SelectRight | src/driven/data_sets/expression_profile.py:228-229 | the remaining columns are the right array |
| Tables.Minimum | src/driven/data_sets/expression_profile.py:559 | `np.amin` is one of the values and no value is smaller |
| Tables.Maximum | src/driven/data_sets/expression_profile.py:559 | `np.amax` is one of the values and no value is larger |
| Tables.Sort | src/driven/data_sets/expression_profile.py:211 | sorting gives an ordered permutation |
| Tables.MedianBounds | src/driven/data_sets/expression_profile.py:211 | a median lies between the smallest and the largest value, and is one of them for an odd count |
| Tables.MedianConstant | src/driven/data_sets/expression_profile.py:211 | a block of equal values has that value as median |
| Text.ReplaceAbsent | driven/data_sets/expression_profile.py:278 | `str.replace` leaves a text without the pattern unchanged |
| Text.ReplaceConcat | driven/data_sets/expression_profile.py:278 | replacing distributes over a concatenation that no occurrence straddles |
| Text.Split | driven/generic/adapter.py:234 | `str.split()` gives whitespace-free, non-empty words |
| Text.SplitJoin | driven/generic/adapter.py:248 | splitting words joined by single spaces gives the words back |
| Profile.ShapeCheckAgrees | src/driven/data_sets/expression_profile.py:95-99 | away from the single-identifier case the dimension assertion accepts exactly the matrices with one row per identifier and one column per condition |
| Profile.SingleIdentifierShape | src/driven/data_sets/expression_profile.py:96-97 | with one identifier and two conditions the assertion refuses the 1×2 matrix and accepts the unusable 2×1 one |
| Profile.ExpressionProfile.Create | src/driven/data_sets/expression_profile.py:73-108 | AssertionError exactly when the shape is wrong; otherwise a fresh profile holding the given parts |
| Profile.ExpressionProfile.constructor | src/driven/data_sets/expression_profile.py:101-108 | the profile stores the identifiers, conditions, expression and p-values it is given |
| Profile.Positions | src/driven/data_sets/expression_profile.py:129-135 | an int or a slice selects only positions inside the axis; a slice selects numpy's slice positions |
| Profile.SelectRows | src/driven/data_sets/expression_profile.py:135 | the selected rows, in the order asked for |
| Profile.Select | src/driven/data_sets/expression_profile.py:135 | numpy indexing fails only with IndexError |
| Profile.ItemAt | src/driven/data_sets/expression_profile.py:110-135 | AttributeError exactly for a non-tuple key or a key mixing labels and positions; two labels succeed exactly when both are known, else KeyError |
| Profile.ItemByLabel | src/driven/data_sets/expression_profile.py:125-127 | a label lookup is the positional lookup at the label's (last) position |
| Profile.ItemByPosition | src/driven/data_sets/expression_profile.py:128-135 | two ints give that one value, and negative ints count from the end |
| Profile.ItemWhole | src/driven/data_sets/expression_profile.py:554-555 | `profile[:, :]` is the whole matrix |
| Profile.ItemColumn | src/driven/data_sets/expression_profile.py:556-557 | `profile[:, j]` is column j |
| Profile.ConditionIndex | src/driven/data_sets/expression_profile.py:371-374 | a label names its position or raises KeyError; an int is normalised as Python does |
| Profile.ToDictOf | src/driven/data_sets/expression_profile.py:358-377 | fails exactly when the condition is unknown; otherwise has exactly the identifiers as keys |
| Profile.ToDictLookup | src/driven/data_sets/expression_profile.py:376-377 | each identifier maps to the chosen column's value in its last row |
| Profile.MinMaxValues | src/driven/data_sets/expression_profile.py:553-558 | no condition selects every entry; a condition selects its column, failing exactly when the condition is unknown |
| Profile.MinMaxOf | src/driven/data_sets/expression_profile.py:539-559 | the pair is the least and greatest selected value, both among them; an empty selection raises ValueError |
| Profile.MinMaxWhole | src/driven/data_sets/expression_profile.py:553-559 | `minmax()` bounds every entry of the matrix |
| Profile.PairsFrom | src/driven/data_sets/expression_profile.py:250-251 | every pair it yields is an ordered pair of distinct positions |
| Profile.PairsFromSlot | src/driven/data_sets/expression_profile.py:250-251 | every ordered pair of distinct positions occurs, at a computed slot |
| Profile.PairsFromLength | src/driven/data_sets/expression_profile.py:250-251 | there are n(n-1)/2 pairs |
| Profile.PairsHead | src/driven/data_sets/expression_profile.py:250-251 | the first n-1 pairs start with the first condition |
| Profile.PValueColumns | src/driven/data_sets/expression_profile.py:240-251 | one label "A B p-value" per pair, in `combinations` order |
| Profile.PValueColumnOf | src/driven/data_sets/expression_profile.py:250-251 | the label of the column holding the p-value between conditions x < y |
| Profile.PValueColumnsTwo | src/driven/data_sets/expression_profile.py:250-251 | two conditions T1, T2 give the single label "T1 T2 p-value" |
| Profile.PValuesAsWritten | src/driven/data_sets/expression_profile.py:253-270 | the getter as written: AttributeError with no p-values and ValueError when any p-value is zero |
| Profile.ZeroPValueRefused | src/driven/data_sets/expression_profile.py:267-268 | a p-value of exactly 0 is refused by the written getter and returned by the corrected one |
| Profile.PValuesOf | src/driven/data_sets/expression_profile.py:253-270 | ValueError exactly when no p-values are defined; otherwise the stored array |
| Profile.ExpressionProfile.SetPValues | src/driven/data_sets/expression_profile.py:272-288 | ValueError, leaving the p-values unchanged, exactly when an array's column count differs from the number of condition pairs; otherwise the p-values are replaced |
| Profile.ExpressionProfile.DeletePValues | src/driven/data_sets/expression_profile.py:290-293 | the p-values are gone |
| Profile.Step | src/driven/data_sets/expression_profile.py:312-322 | one trend entry: the sign of the change when the p-value is at most the cutoff, else 0 |
| Profile.Trends | src/driven/data_sets/expression_profile.py:310-322 | one entry per consecutive pair of conditions |
| Profile.TrendRowDone | src/driven/data_sets/expression_profile.py:310-322 | the inner loop's entries are the identifier's trend row |
| Profile.DifferencesOf | src/driven/data_sets/expression_profile.py:295-324 | fails exactly when a comparison is needed and the p-values do not cover it, with the getter's error; otherwise one trend row per identifier |
| Profile.DifferencesStops | src/driven/data_sets/expression_profile.py:314 | the loop stops with the getter's error or with IndexError at a missing p-value cell |
| Profile.TrendRowsSnoc | src/driven/data_sets/expression_profile.py:308-309 | the outer loop adds one identifier's row at a time |
| Profile.DifferencesMeaning | src/driven/data_sets/expression_profile.py:309-324 | every identifier gets len(conditions)-1 entries in {-1, 0, +1}: 0 above the cutoff, the sign of the change otherwise |
| Profile.ExpressionProfile.Differences | src/driven/data_sets/expression_profile.py:295-324 | the loop returns `DifferencesOf` on the stored values: the getter's error or IndexError when a needed p-value is missing, otherwise one trend row per identifier |
| Profile.ExpressionProfile.DifferencesRow | src/driven/data_sets/expression_profile.py:311-323 | the inner loop yields the identifier's trend row, and then the p-values cover that row; when it stops, `DifferencesOf` fails with the same error |
| Profile.DifferencesColumn | src/driven/data_sets/expression_profile.py:250-251 | for k ≥ 1 the column read for the step k → k+1 holds the p-value between the first condition and condition k+1 |
| Profile.DifferencesWrongPair | src/driven/data_sets/expression_profile.py:314 | a rise between the 2nd and 3rd conditions with p = 0 between them is reported as no change |
| Profile.NextSlot | src/driven/data_sets/expression_profile.py:250-251 | the column of the consecutive pair (k, k+1) |
| Profile.ConsecutiveRow | src/driven/data_sets/expression_profile.py:310-322 | the trend entries judged with each consecutive pair's own p-value |
| Profile.ConsecutiveDifferencesOf | src/driven/data_sets/expression_profile.py:295-324 | the corrected differences succeed exactly when the p-values cover every pair, with every identifier as a key |
| Profile.ConsecutiveColumn | src/driven/data_sets/expression_profile.py:250-251 | the corrected step k → k+1 reads the column labelled with conditions k and k+1 |
| Profile.ConsecutiveRightPair | src/driven/data_sets/expression_profile.py:314 | on the same input the corrected reading reports the rise |
| Profile.GeneValues | src/driven/data_sets/expression_profile.py:410-411 | every gene of the reaction, with its profile value or the cutoff |
| Profile.ReactionProfile | src/driven/data_sets/expression_profile.py:405-416 | the keys are exactly the reactions with at least one gene among the identifiers |
| Profile.ReactionProfileAt | src/driven/data_sets/expression_profile.py:412-413 | each such reaction holds its own mapped value |
| Profile.ReactionProfileMeaning | src/driven/data_sets/expression_profile.py:402-416 | a profiled reaction's value is its rule under `or2max_and2min`, with 0.0 for genes outside the profile |
| Profile.ExpressionProfile.ToReactionDict | src/driven/data_sets/expression_profile.py:379-416 | fails exactly as `to_dict` fails; otherwise the reaction dictionary, whatever the keyword arguments |
| Profile.Where | src/driven/data_sets/expression_profile.py:181-182 | the positions of the labels that do (or do not) contain "p-value" |
| Profile.WhereComplete | src/driven/data_sets/expression_profile.py:181-182 | every matching position is picked, in increasing order |
| Profile.Labels | src/driven/data_sets/expression_profile.py:181-182 | the labels at the picked positions |
| Profile.SplitFrame | src/driven/data_sets/expression_profile.py:162-189 | conditions have no "p-value", identifiers are the index, and there are no p-values exactly when no column has "p-value" |
| Profile.ExpressionProfile.FromDataFrame | src/driven/data_sets/expression_profile.py:161-189 | a fresh profile holding the split frame |
| Profile.FrameOf | src/driven/data_sets/expression_profile.py:218-238 | the frame exists exactly when the p-values fit the pairs, with the identifiers as index |
| Profile.FrameRoundTrip | src/driven/data_sets/expression_profile.py:162-238 | importing the exported frame returns the profile's parts when no condition label contains "p-value" |
| Profile.RoundTripWithPValues | src/driven/data_sets/expression_profile.py:228-238 | the round trip with p-value columns appended |
| Profile.Chunks | src/driven/data_sets/expression_profile.py:211-212 | ceil(n/k) blocks of at most k entries |
| Profile.ChunksCover | src/driven/data_sets/expression_profile.py:211-212 | the blocks together are the whole sequence |
| Profile.ChunksOne | src/driven/data_sets/expression_profile.py:211-212 | blocks of width one are the single entries |
| Profile.Collapse | src/driven/data_sets/expression_profile.py:209-215 | one column per block; the rows are kept |
| Profile.CollapseBounds | src/driven/data_sets/expression_profile.py:211-213 | each median lies between its block's smallest and largest value |
| Profile.CollapseLabel | src/driven/data_sets/expression_profile.py:214-215 | each new label is the longest common prefix of its block's labels |
| Profile.CollapseOne | src/driven/data_sets/expression_profile.py:209-215 | `replicates=1` changes nothing |
| Profile.ExpressionProfile.FromCsv | src/driven/data_sets/expression_profile.py:191-216 | the profile of the parsed table, collapsed first when replicates are given |
| LegacyProfile.LegacyPValuesAsWritten | driven/data_sets/expression_profile.py:196-208 | the older getter succeeds exactly for a single non-zero p-value, and every refusal is ValueError |
| LegacyProfile.LegacyPValuesRefused | driven/data_sets/expression_profile.py:205-206 | two identifiers with one p-value each are refused by the older getter and returned by the corrected one; where the older getter succeeds the two agree |
| LegacyProfile.LegacyDifferencesOk | driven/data_sets/expression_profile.py:224-252 | the older `differences` succeeds only with nothing to compare, or for one identifier, two conditions and one non-zero p-value |
| LegacyProfile.Shift | driven/data_sets/expression_profile.py:179 | adding a one-entry array broadcasts it to every cell |
| LegacyProfile.LegacyFrameAsWritten | driven/data_sets/expression_profile.py:165-182 | without p-values the frame is the newer one; with p-values it exists only for a single non-zero p-value and no condition pair, and then holds the shifted expression |
| LegacyProfile.LegacyFrameRefused | driven/data_sets/expression_profile.py:179-182 | with two or more conditions every profile with p-values is refused |
| LegacyProfile.LegacyFrameExample | driven/data_sets/expression_profile.py:179-182 | one identifier under T1 and T2 with its p-value: the older property raises, the corrected one lays the "T1 T2 p-value" column beside the expression |
| LegacyProfile.LegacyReactionValue | driven/data_sets/expression_profile.py:254-284 | with a numeric cutoff the value is the text-rewrite evaluation of the rule over the gene values; otherwise it fails only by ValueError for a missing gene |
| LegacyProfile.LegacyReactionProfile | driven/data_sets/expression_profile.py:307-341 | when it succeeds, the keys are exactly the profiled reactions |
| LegacyProfile.LegacyErrorSticks | driven/data_sets/expression_profile.py:334-340 | the first reaction that raises ends the whole loop with its error |
| LegacyProfile.LegacyOk | driven/data_sets/expression_profile.py:334-341 | over rendered rules and a numeric cutoff the loop always succeeds |
| LegacyProfile.LegacyStep | driven/data_sets/expression_profile.py:334-340 | a later reaction changes only its own entry |
| LegacyProfile.LegacyLast | driven/data_sets/expression_profile.py:337-340 | the last profiled reaction holds its rule's activity under `map_by`, missing genes read as `cutoff` |
| LegacyProfile.LegacyReactionProfileAt | driven/data_sets/expression_profile.py:307-341 | with distinct ids every profiled reaction holds its rule's activity under `map_by` over its genes, missing genes read as `cutoff` |
| LegacyProfile.LegacyAgreesWithProfile | driven/data_sets/expression_profile.py:307-341 | with `or2max_and2min` and cutoff 0 the older text path gives the newer tree path's value |
| LegacyProfile.LegacyToReactionDict | driven/data_sets/expression_profile.py:307-341 | fails as `to_dict` fails; otherwise the loop computes the older reaction dictionary |
| LegacyProfile.LegacyReactionLoop | driven/data_sets/expression_profile.py:332-341 | the loop over the reactions yields `LegacyReactionProfile`: each profiled reaction's value, or the first error raised |
| Gpr.PolicyOf | src/driven/data_sets/expression_profile.py:351-355 | the two named policies are recognised exactly by their names; any other `by` leaves the raw expression |
| Gpr.ToSympy | src/driven/data_sets/expression_profile.py:32-47 | the symbols of the translated expression are exactly the rule's genes |
| Gpr.ApplyPolicy | src/driven/data_sets/expression_profile.py:352-355 | replacing operators keeps the symbols |
| Gpr.MapGeneToRxn | src/driven/data_sets/expression_profile.py:326-356 | the evaluation is numeric exactly when every gene of the rule has a value |
| Gpr.ApplyPolicyAnd | src/driven/data_sets/expression_profile.py:350-355 | an `and` node becomes a minimum under both policies and stays a product otherwise |
| Gpr.ApplyPolicyOr | src/driven/data_sets/expression_profile.py:350-355 | an `or` node becomes a maximum under `or2max_and2min` and stays a sum otherwise |
| Gpr.PipelineAnd | src/driven/data_sets/expression_profile.py:350-356 | an `and` node evaluates to its documented value when its children do |
| Gpr.PipelineOr | src/driven/data_sets/expression_profile.py:350-356 | an `or` node evaluates to its documented value when its children do |
| Gpr.PipelineMatchesActivity | src/driven/data_sets/expression_profile.py:326-356 | parse, replace and substitute compute the documented min/max (or min/sum, or product/sum) fold of the rule |
| Gpr.MapGeneToRxnMeaning | src/driven/data_sets/expression_profile.py:326-356 | `_map_gene_to_rxn` gives the documented policy's value of the rule |
| Gpr.MinMaxPicksGene | src/driven/data_sets/expression_profile.py:338-340 | under `or2max_and2min` the value is the value of one of the rule's genes |
| Gpr.MinMaxIsBoolean | src/driven/data_sets/expression_profile.py:338-340 | on 0/1 gene values `or2max_and2min` is the Boolean rule |
| Gpr.RawIsBoolean | src/driven/data_sets/expression_profile.py:350-356 | without a policy the product/sum on 0/1 values is non-negative and non-zero exactly when the Boolean rule holds |
| Gpr.SumDominatesMax | src/driven/data_sets/expression_profile.py:338-343 | with non-negative gene values the sum policy never gives less than the max policy, and neither is negative |
| Gpr.MinMaxMonotone | src/driven/data_sets/expression_profile.py:338-340 | raising gene values never lowers an `or2max_and2min` value |
| Arith.Eval | src/driven/data_sets/expression_profile.py:356 | substitution gives a number exactly when every free symbol has a value |
| Arith.ReplaceMul | src/driven/data_sets/expression_profile.py:352-354 | replacing `Mul` keeps the free symbols |
| Arith.ReplaceAdd | src/driven/data_sets/expression_profile.py:352 | replacing `Add` keeps the free symbols |
| Arith.Run | driven/data_sets/expression_profile.py:279 | the tokenizer's name or number run is maximal |
| Arith.LexConcat | driven/data_sets/expression_profile.py:279 | tokenizing distributes over a concatenation at a token boundary |
| Arith.LexName | driven/data_sets/expression_profile.py:279 | a Python name is one name token |
| Arith.ParseSum | driven/data_sets/expression_profile.py:279 | a successful parse consumes at least one token |
| Arith.ParsePrinted | driven/data_sets/expression_profile.py:279 | parsing the fully parenthesised text of a sum/product tree gives the tree back and leaves the following tokens alone |
| Arith.ParseSumPrinted | driven/data_sets/expression_profile.py:279 | the round trip for a sum |
| Arith.ParseProductPrinted | driven/data_sets/expression_profile.py:279 | the round trip for a product |
| RuleText.Translate | driven/data_sets/expression_profile.py:277-279 | the intended sympy tree of a rule has exactly its genes as symbols and prints back |
| RuleText.TranslateToSympy | src/driven/data_sets/expression_profile.py:30-47 | the older intended tree is the newer AST translation |
| RuleText.BoundaryNoStraddle | driven/data_sets/expression_profile.py:278 | a word made of name characters cannot straddle a token boundary |
| RuleText.RenderReplace | driven/data_sets/expression_profile.py:278 | replacing a word that no gene id contains rewrites exactly the operator words |
| RuleText.PartReplace | driven/data_sets/expression_profile.py:278 | the same for one operand |
| RuleText.SwapShow | driven/_cobra_ext.py:25 | on a clean rule both rewrites turn exactly the operator words into the chosen operators |
| RuleText.LexRender | driven/_cobra_ext.py:26 | a rewritten clean rule tokenizes into its operator and name tokens |
| RuleText.ParseRender | driven/_cobra_ext.py:26 | `parse_expr` reads a rewritten rule back as the translated tree |
| RuleText.TextMapGeneToRxn | driven/data_sets/expression_profile.py:254-284 | when the text parses, the value is numeric exactly when every symbol has a value |
| RuleText.TextMapGeneToRxnShow | driven/data_sets/expression_profile.py:277-284 | on a clean rule's text the older text path equals the tree path, and gives the documented policy value when every gene has a value |
| RuleText.GeneExpressionShow | driven/_cobra_ext.py:23-26 | `gene_expression` parses a clean rule into the swapped tree whose symbols are exactly the reaction's genes |
| RuleText.MaxMinActivity | driven/data_sets/normalization.py:27-28 | on the swapped tree, `Mul`→`Max` and `Add`→`Min` compute the min over complexes and max over isozymes |
| RuleText.MaxMin | driven/data_sets/normalization.py:27-28 | the replaced expression is numeric exactly when every symbol has a value |
| RuleText.Or2MinAnd2Max | driven/data_sets/normalization.py:23-28 | fails exactly when `gene_expression` cannot parse the rewritten text |
| RuleText.Or2MinAnd2MaxDefaulting | driven/data_sets/normalization_functions.py:20-29 | fails exactly when the rewritten text does not parse |
| RuleText.MaxMinStep | driven/data_sets/normalization.py:27 | one node of that computation |
| RuleText.Or2MinAnd2MaxShow | driven/data_sets/normalization.py:23-28 | on a parenthesised clean rule the evaluator gives min over complexes and max over isozymes (the same code is in src/driven/data_sets/normalization.py) |
| RuleText.Defaulted | driven/data_sets/normalization_functions.py:25 | each of the reaction's genes gets its value or 0 |
| RuleText.Or2MinAnd2MaxDefaultingShow | driven/data_sets/normalization_functions.py:20-29 | the same value with the missing genes read as 0 |
| RuleText.SingleGene | driven/data_sets/normalization_functions.py:24-29 | a single-gene rule gives that gene's value, or 0 (symbolic in the other module) when it is absent |
| RuleText.FlatSwap | driven/data_sets/normalization_functions.py:26 | both rewrites of `x and y or z` tokenize as `x op y op z` |
| RuleText.ParseFlat | driven/data_sets/normalization_functions.py:27 | Python precedence makes the product bind tighter |
| RuleText.MixedParse | driven/_cobra_ext.py:25-26 | the rule `(x and y) or z` parses as `x*y + z` with the older profile's swap and as `x + y*z` with `_cobra_ext`'s |
| RuleText.PrecedenceInverted | driven/data_sets/normalization_functions.py:26-28 | `x and y or z` evaluates to min(x, max(y, z)) where the rule means max(min(x, y), z) |
| RuleText.Or2MinAnd2MaxFixed | driven/data_sets/normalization_functions.py:26-28 | the corrected evaluator fails exactly when the text rewritten with `and`→`*`, `or`→`+` does not parse |
| RuleText.FixedMixed | driven/data_sets/normalization_functions.py:26-28 | the corrected evaluator reads `x and y or z` as max(min(x, y), z) |
| RuleText.FixedShow | driven/data_sets/normalization_functions.py:26-28 | on every parenthesised clean rule the corrected evaluator is the min/max activity |
| RuleText.GeneIdRewritten | driven/data_sets/expression_profile.py:278 | the gene `cor1` becomes `c+1`, so the text path leaves a symbol unvalued where the tree path reads 5 |
| RuleText.LexC1 | driven/data_sets/expression_profile.py:279 | `c+1` tokenizes as a name, a plus and a number |
| RuleText.ParseC1 | driven/data_sets/expression_profile.py:279 | and parses as `c + 1` |
| RuleText.MetaboliteStringMeaning | driven/_cobra_ext.py:29-33 | the name always leads, and the formula is shown exactly when there is one with at least one element |
| Metabolic.ValueAppend | src/driven/omics/gimme.py:86 | a linear expression over two lists of terms is the sum of the two expressions |
| Metabolic.ValuePair | src/driven/omics/gimme.py:82-83 | a two-term expression is the weighted sum of its two variables |
| Metabolic.FluxValue | src/driven/omics/imat.py:102 | `flux_expression` is the forward variable minus the reverse variable |
| Metabolic.Solve | src/driven/omics/fastcc.py:86-89 | the reported objective is the objective expression's value, and there is one flux per reaction, in model order, each its net flux |
| Metabolic.Find | driven/flux_analysis/transcriptomics.py:99 | a found position holds a reaction with that id; not found means no reaction has it |
| Metabolic.UndoInverse | driven/flux_analysis/transcriptomics.py:104-107 | each edit's undo entry restores the state before the edit |
| Metabolic.RollbackApply | driven/flux_analysis/transcriptomics.py:102-107 | recording an edit together with its undo entry leaves the rollback target unchanged |
| Metabolic.Without | driven/flux_analysis/transcriptomics.py:204-206 | removal keeps exactly the elements not listed, in order |
| Metabolic.WithoutDisjoint | driven/flux_analysis/transcriptomics.py:204-206 | removing items that are not there changes nothing |
| Metabolic.WithoutAppended | driven/flux_analysis/transcriptomics.py:181-189 | removing the items just added, when they were new, returns the original list |
| Metabolic.Model.constructor | src/driven/omics/fastcc.py:90 | a model starts with the given content, outside any scope |
| Metabolic.Model.Load | src/driven/omics/fastcc.py:91-92 | replacing the content keeps the scope and the undo log |
| Metabolic.Model.Enter | src/driven/omics/fastcc.py:68 | entering `with model:` records the current state and changes nothing |
| Metabolic.Model.Do | src/driven/omics/fastcc.py:81-84 | an edit changes the state exactly as the edit says and keeps the scope |
| Metabolic.Model.Exit | src/driven/omics/fastcc.py:68-86 | leaving the block puts the model back to the state it was entered with |
| Metabolic.Model.Discard | driven/flux_analysis/transcriptomics.py:203-206 | outside a scope, the listed variables and constraints are removed and nothing else changes |
| Metabolic.Model.Copy | src/driven/omics/fastcc.py:90 | a copy is a fresh model with the same content |
| Fluxes.FluxConstraints.IdIndex | src/driven/data_sets/fluxes.py:57-58 | the id index holds exactly the ids, each at the position of its last occurrence |
| Fluxes.Create | src/driven/data_sets/fluxes.py:52-59 | construction succeeds exactly when the limits have one row of two per id, and keeps ids and limits; otherwise AssertionError |
| Fluxes.GetItem | src/driven/data_sets/fluxes.py:71-80 | an int in [-n, n) gives that row (negative counted from the end), otherwise IndexError; a known id gives the row of its last occurrence, otherwise KeyError; any other key ValueError; every row has two entries |
| Fluxes.IterIndexes | src/driven/data_sets/fluxes.py:82-84 | with distinct ids, each iterated id and its position index the same row |
| Fluxes.Equal | src/driven/data_sets/fluxes.py:95-100 | equality holds exactly when the other object is a FluxConstraints with the same ids and the same limits |
| Fluxes.Cell | src/driven/data_sets/fluxes.py:119-125 | a row's field lookup succeeds exactly when the column exists, otherwise KeyError |
| Fluxes.RowLimits | src/driven/data_sets/fluxes.py:118-125 | the row function gives a pair in either mode |
| Fluxes.LimitRows | src/driven/data_sets/fluxes.py:119-125 | applying the row function gives one pair per row, each the row function's result, or an error some row raised |
| Fluxes.FromDataFrame | src/driven/data_sets/fluxes.py:117-129 | the intended reader: an unknown data type raises ValueError; a result keeps the frame's index as ids and each row is that frame row's pair from the named columns; a frame without rows is read as no constraints |
| Fluxes.FromDataFrameAsWritten | src/driven/data_sets/fluxes.py:117-129 | as written: an unknown data type raises ValueError; the shape assertion admits only a frame exactly two columns wide, on which the result is the intended reader's |
| Fluxes.ExtraColumnRefused | src/driven/data_sets/fluxes.py:119-129 | a one-row measurement frame with a `unit` column raises AssertionError as written and gives `[value - deviation, value + deviation]` as intended |
| Fluxes.DataFrame | src/driven/data_sets/fluxes.py:152-155 | the frame is indexed by the ids and holds the limits |
| Fluxes.RoundTrip | src/driven/data_sets/fluxes.py:117-155 | reading `data_frame` back as "constraints" gives the same constraints, with the intended reader and as written |
| Fluxes.MeasurementLimits | src/driven/data_sets/fluxes.py:118-121 | a measurement row gives `[value - deviation, value + deviation]`, ordered around the value when the deviation is not negative |
| Fluxes.FromDataFrameOk | driven/data_sets/fluxes.py:28-37 | the intended reader reads every non-empty frame with the columns its mode needs; the reader as written reads it exactly when the frame has no other column |
| Fastcc.AuxConstMeaning | src/driven/omics/fastcc.py:76-78 | the constraint `forward + reverse - aux >= 0` holds exactly when the auxiliary value is covered by the reaction's total flux in both directions |
| Fastcc.Collected | src/driven/omics/fastcc.py:73-80 | one auxiliary variable in `[0, flux_threshold]`, one constraint and one objective coefficient 1.0 per reaction, in reaction order |
| Fastcc.Blocked | src/driven/omics/fastcc.py:88-89 | an id is listed exactly when some flux entry for it has absolute value strictly below `zero_cutoff` |
| Fastcc.RemoveReactions | src/driven/omics/fastcc.py:91 | exactly the reactions whose id is not listed remain; a metabolite goes only when a removed reaction used it and no remaining one does; the rest of the problem is unchanged |
| Fastcc.Keep | src/driven/omics/fastcc.py:91 | the kept reactions are exactly those whose id is not listed |
| Fastcc.KeepMetabolites | src/driven/omics/fastcc.py:91 | with `remove_orphans=True` exactly the metabolites orphaned by the removal are dropped |
| Fastcc.ConsistentKeeps | src/driven/omics/fastcc.py:86-91 | with unique ids, a reaction survives exactly when the solved flux's absolute value is at least `zero_cutoff` |
| Fastcc.CollectAux | src/driven/omics/fastcc.py:69-80 | the loop collects exactly `Collected(rs, threshold)`: one auxiliary variable, one coupling constraint and one objective term per reaction, in model order |
| Fastcc.FastCC | src/driven/omics/fastcc.py:68-94 | the input model is left as it was; the result is a fresh model whose state is the input with the blocked reactions (and their orphans) removed |
| Gimme.Coefficients | src/driven/omics/gimme.py:76-78 | exactly the reactions whose expression is strictly below the cutoff get a coefficient, which is `cutoff - expression` and positive |
| Gimme.PenaltyTerms | src/driven/omics/gimme.py:79-83 | every objective term is a forward or reverse variable of a reaction with a coefficient, weighted by that coefficient |
| Gimme.PenaltyTermsComplete | src/driven/omics/gimme.py:80-83 | a reaction with a coefficient has both its forward and its reverse variable in the objective, with the same weight |
| Gimme.PenaltyZero | src/driven/omics/gimme.py:85-86 | with non-negative flux variables the penalty is never negative, and it is zero exactly when every penalised variable carries no flux |
| Gimme.Rmf | src/driven/omics/gimme.py:66-73 | the RMF constraint is the original objective expression |
| Gimme.RmfMeaning | src/driven/omics/gimme.py:66-73 | it holds exactly when the objective reaches `fraction * optimum` for a maximised objective, or stays at or below it for a minimised one |
| Gimme.GimmeProblem | src/driven/flux_analysis/gimme.py:51-76 | the problem keeps the reactions, variables and metabolites, adds the RMF constraint last, and minimises |
| Gimme.GimmePenalised | src/driven/omics/gimme.py:76-86 | a reaction below the cutoff has both its variables in the objective with weight `cutoff - expression` |
| Gimme.GimmeUnpenalised | src/driven/omics/gimme.py:76-86 | a reaction at or above the cutoff, or without expression, has no term in the objective |
| Gimme.ObjectiveTerms | src/driven/omics/gimme.py:79-83 | the loop collects exactly the penalty terms |
| Gimme.Gimme | src/driven/omics/gimme.py:61-88 | a profile lookup error is passed on; otherwise the result is the solution of the GIMME problem built from the reaction profile, and the model is as it was once the `with` block closes |
| Imat.Classify | src/driven/omics/imat.py:96-113 | a reaction is highly expressed exactly when above the high cutoff, lowly expressed exactly when not above it and below the low cutoff |
| Imat.ValueTriple | src/driven/omics/imat.py:101-123 | a three-term linear expression takes the weighted sum of its variables' values |
| Imat.PosValue | src/driven/omics/imat.py:101-104 | the `y_pos` constraint's expression is the flux plus `(lower_bound - epsilon) * y_pos` |
| Imat.NegValue | src/driven/omics/imat.py:106-109 | the `y_neg` constraint's expression is the flux plus `(upper_bound + epsilon) * y_neg` |
| Imat.PosIndicator | src/driven/omics/imat.py:101-104 | with `y_pos` set the constraint forces a flux of at least epsilon; clear, it only keeps the lower bound |
| Imat.NegIndicator | src/driven/omics/imat.py:106-109 | with `y_neg` set the constraint forces a flux of at most minus epsilon; clear, it only keeps the upper bound |
| Imat.LowIndicator | src/driven/omics/imat.py:117-123 | with `x` set the two constraints pin the flux to zero; clear, they keep it within its bounds |
| Imat.CollectedCounts | src/driven/omics/imat.py:94-125 | two binaries and two constraints per highly expressed reaction, one binary and two constraints per lowly expressed one, one objective term per binary |
| Imat.CollectedFor | src/driven/omics/imat.py:94-125 | each classified reaction's binaries and constraints are among the additions |
| Imat.Collect | src/driven/omics/imat.py:86-125 | the loop collects exactly `Collected(rs, profile, low, high, epsilon)`: for each profiled reaction in model order, two binaries and two constraints when highly expressed, one binary and two constraints when lowly expressed, and one objective term per binary |
| Imat.Imat | src/driven/omics/imat.py:82-132 | inverted cutoffs raise ValueError; a profile lookup error is passed on; otherwise the result solves the iMAT problem, and the model is as it was once the `with` block closes |
| FluxAnalysisImat.Known | driven/flux_analysis/imat.py:62-64 | the numeric entries of the older reaction profile are exactly its entries holding a number, with that number |
| FluxAnalysisImat.ImatOf | driven/flux_analysis/imat.py:13-100 | inverted cutoffs raise ValueError before anything else; an error reading the condition is passed on |
| FluxAnalysisImat.NumericOf | driven/flux_analysis/imat.py:62-64 | a profile whose every entry is a number compares with the cutoffs as those numbers |
| FluxAnalysisImat.LegacyNumericAgrees | driven/flux_analysis/imat.py:60 | on rules given as their text over clean gene ids, `to_reaction_dict(condition, model)` succeeds, holds only numbers, and equals the newer reaction profile |
| FluxAnalysisImat.SameKeys | driven/data_sets/expression_profile.py:334-341 | two dictionaries keyed by exactly the profiled reactions have the same keys |
| FluxAnalysisImat.ImatOfRendered | driven/flux_analysis/imat.py:51-100 | with ordered cutoffs and rules given as their text, the older `imat` solves the same problem as the newer one |
| FluxAnalysisImat.LegacyCorProfile | driven/flux_analysis/imat.py:60 | the older profile leaves the reaction of gene `cor1` symbolic |
| FluxAnalysisImat.NewerCorProfile | src/driven/omics/imat.py:86 | the newer profile gives the reaction of gene `cor1` that gene's value |
| FluxAnalysisImat.ImatSymbolicExample | driven/flux_analysis/imat.py:60-64 | with gene `cor1` at 5 the older `imat` raises TypeError at its comparison, where the newer profile reads 5 |
| FluxAnalysisImat.CollectedStep | driven/flux_analysis/imat.py:62-93 | one more reaction adds its part exactly when it is profiled |
| FluxAnalysisImat.Collect | driven/flux_analysis/imat.py:62-93 | the loop raises TypeError exactly when some profiled value is symbolic; otherwise it collects `Collected` over the numeric profile: the newer iMAT's binaries, constraints and objective terms |
| FluxAnalysisImat.Imat | driven/flux_analysis/imat.py:13-100 | the result is `ImatOf` of the model on entry, and the model is as it was once the `with` block closes, on every path |
| Results.Lookup | driven/flux_analysis/results.py:74-75 | a dictionary lookup finds a value exactly when the key is present |
| Results.LookupEntry | driven/flux_analysis/results.py:74-75 | with distinct keys, each stored key looks up its own value |
| Results.AbsDiffSum | driven/flux_analysis/results.py:80-81 | `distance` raises KeyError exactly when a reaction lacks a reference flux; otherwise it is not negative, and zero exactly when every flux equals its reference |
| Results.InconsistencyOf | driven/flux_analysis/results.py:73-77 | a reaction with expression but no flux raises KeyError; the score is never negative, and positive exactly when the reaction is expressed below the cutoff and carries flux |
| Results.SumScores | driven/flux_analysis/results.py:84-85 | summing scores fails exactly when one fails; the sum is not negative, and zero exactly when every score is zero |
| Results.InconsistencyScore | driven/flux_analysis/results.py:83-85 | the total fails exactly when some expressed reaction's score fails; it is zero exactly when every expressed reaction scores zero |
| Results.InconsistencyZero | driven/flux_analysis/results.py:73-85 | with distinct expressed ids, the total is zero exactly when no reaction expressed below the cutoff carries flux |
| Results.InconsistencyZeroAt | driven/flux_analysis/results.py:73-77 | an expressed reaction scores zero exactly when it is at or above the cutoff or carries no flux |
| Results.KnockOut | driven/flux_analysis/results.py:91 | a knocked-out reaction keeps its id and has both bounds zero |
| Results.TrimsExactly | driven/flux_analysis/results.py:89-90 | the score test adds nothing: a flux is trimmed exactly when it is zero and its reaction is expressed below the cutoff |
| Results.TrimSteps | driven/flux_analysis/results.py:88-91 | trimming keeps the reactions and their ids in place |
| Results.TrimStep | driven/flux_analysis/results.py:89-91 | one step keeps the reactions and their ids in place |
| Results.TrimStepsMeaning | driven/flux_analysis/results.py:87-91 | with distinct ids and every flux naming a reaction, trimming never fails, and a reaction ends knocked out exactly when some flux of its id passes the tests |
| Results.StopsThere | driven/flux_analysis/results.py:88-91 | once a step raises, the later fluxes change nothing |
| Results.Highly | driven/flux_analysis/results.py:105-109 | no answer (NaN) exactly when there is no expression; otherwise true exactly when the expression is at least the high cutoff |
| Results.Lowly | driven/flux_analysis/results.py:115-119 | no answer (NaN) exactly when there is no expression; otherwise true exactly when the expression is below the low cutoff |
| Results.HighlyExpress | driven/flux_analysis/results.py:101-103 | one entry per flux key, each the reaction's `_highly_expressed` value |
| Results.LowlyExpress | driven/flux_analysis/results.py:111-113 | one entry per flux key, each the reaction's `_lowly_expressed` value |
| Results.ClassesDisjoint | driven/flux_analysis/results.py:105-119 | with ordered cutoffs no reaction is in both classes, and one between the cutoffs is in neither |
| Results.Diff | driven/flux_analysis/results.py:134-145 | the difference is built exactly when both distributions have the same reaction ids, otherwise AssertionError |
| Results.ManhattanDistance | driven/flux_analysis/results.py:147-152 | the distance is not negative, and zero exactly when the two distributions agree on every reaction |
| Results.Activity | driven/flux_analysis/results.py:161-172 | no answer exactly when both fluxes are below the threshold; otherwise −1, 0 or 1, 1 exactly when only the first is above it and −1 exactly when only the second is |
| Results.ActivityAtThreshold | driven/flux_analysis/results.py:165-172 | a flux exactly at the threshold against no flux gives 0 |
| Results.ActivityProfile | driven/flux_analysis/results.py:175-176 | one entry per reaction of the first distribution, each its activity at threshold 1e-6 |
| Results.FoldChange | driven/flux_analysis/results.py:178-184 | no answer exactly when the first flux is zero; otherwise the relative change that takes the first flux to the second |
| Results.KnockOutById | driven/flux_analysis/results.py:91 | a reaction of that id is knocked out in place, a missing id is reported and changes nothing |
| Results.TrimAt | driven/flux_analysis/results.py:89-91 | one pass is one `TrimStep`: when the j-th flux passes the three trimming tests the reaction of that id is knocked out (both bounds 0), or the step fails with the model unchanged when the id is unknown |
| Results.TrimModel | driven/flux_analysis/results.py:87-91 | the model ends in `TrimSteps`'s state, and KeyError is raised exactly when a trimmed flux names a reaction the model lacks |
| Transcriptomics.DefaultCondition | driven/flux_analysis/transcriptomics.py:93 | a missing condition becomes the first label; with no labels that raises IndexError |
| Transcriptomics.DefaultIsFirstColumn | driven/flux_analysis/transcriptomics.py:135 | a given condition is used as is, and without one the profile is read from its first column |
| Transcriptomics.PositionalGimmeRaises | driven/flux_analysis/transcriptomics.py:95 | as written, GIMME's profile call raises ValueError exactly when a profiled reaction has a gene the profile lacks |
| Transcriptomics.PositionalImatAt | driven/flux_analysis/transcriptomics.py:137 | as written, iMAT's profile call gives each profiled reaction its rule's raw arithmetic (products and sums), not min/max |
| Transcriptomics.IntendedGimmeProfile | driven/flux_analysis/transcriptomics.py:95 | the intended GIMME profile call cannot fail on rendered rules |
| Transcriptomics.IntendedImatProfile | driven/flux_analysis/transcriptomics.py:137 | the intended iMAT profile call cannot fail on rendered rules |
| Transcriptomics.IntendedProfileAt | driven/data_sets/expression_profile.py:307-341 | the intended calls give each profiled reaction the minimum over a complex and the maximum over isozymes, a missing gene counting as the cutoff |
| Transcriptomics.ComplexRendered | driven/data_sets/expression_profile.py:277-284 | the one-reaction model with rule `ga and gb` meets the rendering and profiling conditions |
| Transcriptomics.PositionalImatExample | driven/flux_analysis/transcriptomics.py:137 | as written, `ga and gb` at 2 and 3 is worth 6 |
| Transcriptomics.IntendedImatExample | driven/flux_analysis/transcriptomics.py:137 | as intended the same complex is worth 2 |
| Transcriptomics.PositionalGimmeExample | driven/flux_analysis/transcriptomics.py:95 | as written, a complex with a gene outside the profile raises ValueError |
| Transcriptomics.IntendedGimmeExample | driven/flux_analysis/transcriptomics.py:95 | as intended the missing gene reads as the cutoff |
| Transcriptomics.Numeric | driven/flux_analysis/transcriptomics.py:96 | the comparison raises TypeError exactly when a value is still symbolic; otherwise the values are the numbers of the profile |
| Transcriptomics.LegacyCoefficients | driven/flux_analysis/transcriptomics.py:96 | every profiled reaction gets a non-negative weight, positive exactly below the cutoff, and equal to the newer GIMME's weight where that one has one |
| Transcriptomics.LegacyPenaltyAgrees | driven/flux_analysis/transcriptomics.py:96-103 | the zero weights change nothing: the older objective has the newer one's value at every assignment |
| Transcriptomics.LegacyRmf | driven/flux_analysis/transcriptomics.py:83-90 | the RMF constraint is the model's objective expression, bounded below for a maximised objective argument and above otherwise |
| Transcriptomics.LegacyMatchesGimme | driven/flux_analysis/transcriptomics.py:75-107 | with the model's own objective the older problem is the newer one: same reactions, variables and constraints up to the RMF name, minimised, with the same objective value everywhere |
| Transcriptomics.ProfileEntries | driven/flux_analysis/transcriptomics.py:109 | the result's profile holds exactly the profiled reactions of the model, with their values |
| Transcriptomics.ProfileEntriesUnique | driven/flux_analysis/transcriptomics.py:109 | with distinct reaction ids each profiled reaction appears once |
| Transcriptomics.LegacyGimmeResult | driven/flux_analysis/transcriptomics.py:34-109 | on rendered rules and distinct ids the older GIMME returns a result whose fluxes are the solver's in model order, whose reference fluxes are the given distribution's, and whose profile has distinct keys |
| Transcriptomics.UndoneObjective | driven/flux_analysis/transcriptomics.py:105 | the undo installs an objective over the recorded expression's terms, maximised |
| Transcriptomics.UndoneObjectiveExact | driven/flux_analysis/transcriptomics.py:102-108 | the undo gives the model back its objective exactly when that objective was maximised |
| Transcriptomics.SolveWith | driven/flux_analysis/transcriptomics.py:102-108 | the solution is that of the model with the objective replaced and the constraint added; afterwards the constraint is gone and the objective is the entry objective's terms, maximised, with all else as it was |
| Transcriptomics.LegacyGimme | driven/flux_analysis/transcriptomics.py:34-109 | the method returns `LegacyGimmeOf` of the model on entry; an error leaves the model as it was, and a result leaves it as it was but for the objective, which the time machine's undo sets to the entry objective's terms, maximised |
| Transcriptomics.FluxPlus | driven/flux_analysis/transcriptomics.py:152-160 | a flux plus one weighted indicator evaluates to their sum |
| Transcriptomics.PosHighlyMeaning | driven/flux_analysis/transcriptomics.py:152-155 | with its indicator set the constraint forces a flux of at least epsilon; clear, it restates the variability minimum |
| Transcriptomics.NegHighlyMeaning | driven/flux_analysis/transcriptomics.py:157-160 | with its indicator set the constraint forces a flux of at most minus epsilon; clear, it restates the variability maximum |
| Transcriptomics.LowMeaning | driven/flux_analysis/transcriptomics.py:169-177 | with `x` set the two constraints pin the flux to zero; clear, they keep it within the variability interval |
| Transcriptomics.MergeRewarded | driven/flux_analysis/transcriptomics.py:191 | joining two gatherings keeps one objective term per indicator |
| Transcriptomics.OldPart | driven/flux_analysis/transcriptomics.py:145-179 | one reaction's additions carry one objective term per indicator |
| Transcriptomics.OldPartClassifies | driven/flux_analysis/transcriptomics.py:145-164 | on ordered cutoffs a reaction gets its y pair exactly when highly expressed and its x exactly when lowly expressed; on inverted cutoffs a value strictly between them gets both |
| Transcriptomics.OldCollected | driven/flux_analysis/transcriptomics.py:143-179 | the gathered additions carry one objective term per indicator |
| Transcriptomics.OldStep | driven/flux_analysis/transcriptomics.py:143-145 | a step fails exactly when it failed before or the reaction's value is still symbolic |
| Transcriptomics.OldFailedIff | driven/flux_analysis/transcriptomics.py:142-145 | the loop raises exactly when some profiled reaction's value is still symbolic |
| Transcriptomics.FailedSticks | driven/flux_analysis/transcriptomics.py:200-201 | after a raised comparison the rest of the reactions add nothing |
| Transcriptomics.OldCollectedCounts | driven/flux_analysis/transcriptomics.py:143-179 | on ordered cutoffs and numeric values the loop makes the newer iMAT's numbers of indicators and constraints |
| Transcriptomics.RemovedRestores | driven/flux_analysis/transcriptomics.py:203-206 | when no gathered item was in the model, the `finally` block returns the model to its state before the call, added or not |
| Transcriptomics.IndicatorsValue | driven/flux_analysis/transcriptomics.py:191 | one term of weight 1 per indicator sums the indicators' values |
| Transcriptomics.RewardValue | driven/flux_analysis/transcriptomics.py:191-192 | the objective is the number of indicators set |
| Transcriptomics.LegacyImatOf | driven/flux_analysis/transcriptomics.py:112-206 | an error before the `try` leaves the model as it was, and happens exactly when the condition, the gene profile or the reaction profile fails |
| Transcriptomics.GatherReaction | driven/flux_analysis/transcriptomics.py:145-179 | the loop body gathers exactly one reaction's additions |
| Transcriptomics.LegacyImatResult | driven/flux_analysis/transcriptomics.py:112-206 | on rendered rules and distinct ids the older iMAT answers exactly when the solver does, its objective counts the indicators set, and the model is left as it was |
| Transcriptomics.OldCollect | driven/flux_analysis/transcriptomics.py:143-179 | the loop gathers exactly `OldCollected`, stopping at the first comparison with a missing value |
| Transcriptomics.AddVariables | driven/flux_analysis/transcriptomics.py:181-186 | the variables are appended and nothing else changes |
| Transcriptomics.AddConstraints | driven/flux_analysis/transcriptomics.py:188-189 | the constraints are appended and nothing else changes |
| Transcriptomics.SolveObjective | driven/flux_analysis/transcriptomics.py:194-199 | the solution is that of the model with the objective replaced, none when the solver raises, and the model is as it was afterwards |
| Transcriptomics.LegacyImat | driven/flux_analysis/transcriptomics.py:112-206 | the final model and the result are `LegacyImatOf` of the model on entry: the added variables and constraints are removed again, and a failed solve returns None |
| Gim3e.TurnoverIdInjective | driven/flux_analysis/gim3e.py:77-100 | distinct metabolites get distinct `TM_` ids, and `id[3:]` takes the prefix off again |
| Gim3e.MetsToAdd | driven/flux_analysis/gim3e.py:83-86 | each metabolite of the reaction brings its turnover metabolite at the absolute value of its coefficient, and nothing else is added |
| Gim3e.Combine | driven/flux_analysis/gim3e.py:87 | `add_metabolites` keeps every metabolite, adds new ones and sums the coefficients of those already there |
| Gim3e.WithTurnoverMeaning | driven/flux_analysis/gim3e.py:82-87 | each metabolite contributes its turnover metabolite at the absolute coefficient, and a metabolite that is no turnover keeps its coefficient |
| Gim3e.WithTurnoverKeeps | driven/flux_analysis/gim3e.py:82-87 | the reaction's id, bounds and rule are kept, and no metabolite is lost |
| Gim3e.Sinks | driven/flux_analysis/gim3e.py:90-104 | exactly one sink per turnover metabolite in the model |
| Gim3e.SinkOfTurnover | driven/flux_analysis/gim3e.py:90-104 | every turnover metabolite gets a sink that consumes two units of it, open below at the bound exactly when the original metabolite is in the medium |
| Gim3e.Penalties | driven/flux_analysis/gim3e.py:107-108 | every profiled reaction gets a coefficient, which added to its expression gives `exp_max` |
| Gim3e.ProfiledWithinRange | driven/flux_analysis/gim3e.py:60-66 | a profiled reaction's value is one of its genes' values, so it lies between the profile's extremes |
| Gim3e.AsWrittenPenaltyNonPositive | driven/flux_analysis/gim3e.py:60-108 | as written, every such reaction's penalty is at most zero |
| Gim3e.PenaltyNonNegative | driven/flux_analysis/gim3e.py:107-108 | with the profile's largest value every such reaction's penalty is at least zero |
| Gim3e.PenaltyExample | driven/flux_analysis/gim3e.py:60-108 | with genes at 1 and 5, as written the reaction at 5 is rewarded with −4; with the maximum the reaction at 1 costs 4 and the one at 5 nothing |
| Gim3e.FixObjective | driven/flux_analysis/gim3e.py:72 | the fixed objective is the objective expression, kept at the bound from below for a maximisation and from above otherwise |
| Gim3e.PenaltyConstraint | driven/flux_analysis/gim3e.py:120-122 | the penalty bound holds exactly when the penalty is at most the bound |
| Gim3e.Gim3eOf | driven/flux_analysis/gim3e.py:60-129 | a failing `minmax` leaves the model untouched and is passed on; the only error raised after the model is touched is the TypeError of a symbolic penalty, which leaves the objective cleared to the empty minimisation; on success the original objective is back and the result is the solution of the final model |
| Gim3e.PenaltyStage | driven/flux_analysis/gim3e.py:107-127 | it fails exactly when some profiled value is symbolic, with TypeError, leaving the extended model with its objective cleared to the empty minimisation; on success the objective is the extended model's, exactly one constraint is appended, nothing else changes, and the result is the solve of that state |
| Gim3e.PenaltyPhase | driven/flux_analysis/gim3e.py:107-127 | the method ends in the state and with the result the penalty stage gives, the cleared objective included when a symbolic value raises TypeError |
| Gim3e.Gim3eStages | driven/flux_analysis/gim3e.py:60-127 | on success the profile, the condition and the medium were all found, and the call is the penalty stage applied to the extended model |
| Gim3e.PenaltyStagePenalised | driven/flux_analysis/gim3e.py:107-123 | on success the added constraint is the penalty bound, and each profiled reaction appears in it on both directions with weight `exp_max` minus its expression |
| Gim3e.ExtendedStructure | driven/flux_analysis/gim3e.py:72-104 | the extended model keeps every metabolite and adds its turnover metabolite and sink, keeps each reaction's place, id and bounds while making it produce its turnover metabolites, and keeps the original constraints first |
| Gim3e.TurnoverCoefficients | driven/flux_analysis/gim3e.py:83-86 | the loop builds exactly `mets_to_add` |
| Gim3e.AddTurnoverMetabolites | driven/flux_analysis/gim3e.py:75-79 | one turnover metabolite per metabolite is appended and nothing else changes |
| Gim3e.AddTurnoverToReactions | driven/flux_analysis/gim3e.py:82-87 | every reaction gains its turnover metabolites and nothing else changes |
| Gim3e.ExtendStep | driven/flux_analysis/gim3e.py:82-87 | extending one more reaction updates exactly that position |
| Gim3e.AddSinks | driven/flux_analysis/gim3e.py:90-104 | the sinks are appended after the reactions and nothing else changes |
| Gim3e.ExtendModel | driven/flux_analysis/gim3e.py:71-104 | the model ends as `Extended`: the fixed-objective constraint appended, the turnover metabolites added, every reaction extended with its turnover coefficients and the sinks appended |
| Gim3e.Gim3e | driven/flux_analysis/gim3e.py:14-129 | the final model and the result are `Gim3eOf` of the model on entry: the extension stays on the model, a failing `minmax` leaves the model untouched, a symbolic penalty raises TypeError with the objective cleared to the empty minimisation, and on success the original objective is in place again and the answer is that model's solve |
| Fluxomics.RowIsItem | src/driven/fluxomics/fluxomics.py:41 | a listed id's `distribution[reaction_id]` is a row of two values, the pair the model reads |
| Fluxomics.RelaxedAsWrittenTightens | src/driven/fluxomics/fluxomics.py:42-43 | as written, `[-10, -5]` relaxed by 0.01 becomes `[-9.9, -5.05]` and the single value −10 becomes the empty `[-9.9, -10.1]` |
| Fluxomics.RelaxedContains | driven/flux_analysis/fluxomics.py:48 | with a non-negative relax the corrected bounds contain the measured interval and stay ordered when it is |
| Fluxomics.RelaxedAgrees | driven/flux_analysis/fluxomics.py:48 | the correction agrees with the written formula on non-negative bounds and moves each negative bound outwards where the written one moves it inwards |
| Fluxomics.UnrelaxedIsExact | driven/flux_analysis/fluxomics.py:48 | relax 0 sets the measured values exactly |
| Fluxomics.BoundsKeep | src/driven/fluxomics/fluxomics.py:39-43 | setting bounds keeps the number, order and ids of the reactions |
| Fluxomics.BoundStepFound | src/driven/fluxomics/fluxomics.py:40 | one pass goes through exactly when the model has a reaction of that id |
| Fluxomics.HasIdSameIds | src/driven/fluxomics/fluxomics.py:40 | lists with the same ids in the same places have the same ids |
| Fluxomics.BoundsKeyError | src/driven/fluxomics/fluxomics.py:40 | the only error the loop raises is KeyError |
| Fluxomics.BoundsFail | src/driven/fluxomics/fluxomics.py:39-43 | the loop goes through exactly when every listed id is a reaction of the model |
| Fluxomics.BoundsSet | src/driven/fluxomics/fluxomics.py:39-43 | with distinct model ids, a listed reaction gets the relaxed bounds of its row and keeps all else, and an unlisted one is untouched |
| Fluxomics.SetBounds | src/driven/fluxomics/fluxomics.py:39-43 | the loop succeeds exactly when `BoundsOf` does (every constrained id is a reaction of the model), and then the model's reactions are `BoundsOf`'s, the rest of the model unchanged |
| Fluxomics.SetRelaxed | src/driven/fluxomics/fluxomics.py:40-43 | one pass is one `BoundStep`: it finds the reaction exactly when the id is in the model, and then only that reaction's bounds change |
| Fluxomics.FailSticks | src/driven/fluxomics/fluxomics.py:39-40 | once an id is missing the loop stays failed |
| Fluxomics.ConstrainAndSolve | src/driven/fluxomics/fluxomics.py:38-47 | the solve is that of the constrained problem, or its KeyError, and the model is as it was after the `with` block |
| Fluxomics.FluxBasedFromTwo | src/driven/fluxomics/fluxomics.py:49 | as written, constructing the result with two arguments always raises TypeError |
| Fluxomics.FluxBased | driven/flux_analysis/results.py:36-39 | the intended result carries the solution's fluxes and objective value next to the measured constraints |
| Fluxomics.LegacyFbaOf | driven/flux_analysis/fluxomics.py:41-54 | the older `fba` rejects a distribution that is not a FluxConstraints with ValueError and otherwise is the newer one |
| Fluxomics.FbaOfMeaning | src/driven/fluxomics/fluxomics.py:22-49 | `fba` goes through exactly when a distribution is given and every id in it is a reaction of the model; then it reports every reaction's flux in model order, and the value of the given objective or the model's own |
| Fluxomics.Fba | src/driven/fluxomics/fluxomics.py:22-49 | the method returns `FbaOf` of the model on entry (a KeyError for an unknown reaction id) and every bound is restored afterwards |
| Fluxomics.LegacyFba | driven/flux_analysis/fluxomics.py:23-54 | the method returns `LegacyFbaOf` of the model on entry and every bound is restored afterwards |
| Fluxomics.SetExactBounds | driven/flux_analysis/c13.py:25-30 | the loop reports success exactly when every id is a reaction, and then the reactions carry the unrelaxed rows |
| Fluxomics.SetExact | driven/flux_analysis/c13.py:26-30 | one pass sets the upper bound, then the lower, to the row's values |
| Fluxomics.C13Bounds | driven/flux_analysis/c13.py:25-30 | with distinct model ids each listed reaction's bounds are exactly its row, and the others are untouched |
| Fluxomics.C13Fba | driven/flux_analysis/c13.py:23-31 | the method returns the pFBA answer on the constrained model and leaves the model as it was |
| FitOperators.CountBound | driven/flux_analysis/fit_objective/generators.py:23 | `list.count` never exceeds the length |
| FitOperators.CountUpdate | driven/flux_analysis/fit_objective/generators.py:23 | overwriting one entry changes a count by what left and what came |
| FitOperators.SelectedUpdate | driven/flux_analysis/fit_objective/generators.py:23-33 | overwriting one entry changes the number of non-zero entries by what left and what came |
| FitOperators.CountOnesSelected | driven/flux_analysis/fit_objective/generators.py:23 | on a 0/1 list counting ones counts the non-zero entries |
| FitOperators.GenEntry | driven/flux_analysis/fit_objective/generators.py:23-33 | one position is written and no other; a binary entry is 0 or 1 after one draw, a linear one 0 or the second draw |
| FitOperators.GeneratedAsWritten | driven/flux_analysis/fit_objective/generators.py:31-33 | as written, the individual has one entry per element of the representation |
| FitOperators.Generated | driven/flux_analysis/fit_objective/generators.py:21-23 | the individual has one entry per element of the representation |
| FitOperators.GeneratedShape | driven/flux_analysis/fit_objective/generators.py:18-35 | unreached positions stay 0, binary entries are 0 or 1, linear entries are 0 or a draw, and at most `max_objectives + 1` entries are selected |
| FitOperators.GeneratedCap | driven/flux_analysis/fit_objective/generators.py:23 | the number of selected entries never goes more than one above the cap |
| FitOperators.IndividualMeaning | driven/flux_analysis/fit_objective/generators.py:18-35 | a missing representation raises TypeError; otherwise one entry per reaction, the last one 0, binary entries 0 or 1, and at most `max_objectives + 1` selected |
| FitOperators.LinearInUnit | driven/flux_analysis/fit_objective/generators.py:33 | with draws in [0, 1) every linear entry lies in [0, 1) |
| FitOperators.BinaryCapAsWritten | driven/flux_analysis/fit_objective/generators.py:23 | for the binary generator counting ones is the intended cap |
| FitOperators.LinearCapAsWrittenInert | driven/flux_analysis/fit_objective/generators.py:33 | as written, with `max_objectives` 0 and every draw 0.75 the linear generator selects two reactions where the cap admits one |
| FitOperators.BinaryGenerator | driven/flux_analysis/fit_objective/generators.py:18-25 | the loop returns `Individual(Binary, ...)`: an error for a missing representation, otherwise one 0/1 entry per candidate reaction drawn from the stream |
| FitOperators.LinearGenerator | driven/flux_analysis/fit_objective/generators.py:28-35 | the loop returns `Individual(Linear, ...)`: an error for a missing representation, otherwise one entry per candidate reaction drawn from the stream |
| FitOperators.MutationAsWrittenInverted | driven/flux_analysis/fit_objective/variators.py:24-34 | as written, a mutation rate of 1 keeps every entry |
| FitOperators.Mutant | driven/flux_analysis/fit_objective/variators.py:22-24 | a mutant has one entry per entry of the candidate and uses one or two draws per entry |
| FitOperators.Offspring | driven/flux_analysis/fit_objective/variators.py:20-25 | one new candidate per candidate, each as long as its original |
| FitOperators.MutantEntries | driven/flux_analysis/fit_objective/variators.py:23-24 | every entry of a mutant is the original or a fresh value; at rate 0 nothing changes and at rate 1 every entry is fresh |
| FitOperators.OffspringMeaning | driven/flux_analysis/fit_objective/variators.py:18-36 | one new candidate per candidate, of the same length, each entry kept or fresh; at rate 0 the population is unchanged |
| FitOperators.OffspringNth | driven/flux_analysis/fit_objective/variators.py:21-25 | the `i`-th new candidate is a mutant of the `i`-th candidate |
| FitOperators.OffspringRateZero | driven/flux_analysis/fit_objective/variators.py:18-36 | at rate 0 the population comes back unchanged |
| FitOperators.BinaryMutant | driven/flux_analysis/fit_objective/variators.py:22-24 | the inner loop yields `Mutant(Binary, ...)`: each entry is replaced by a fresh 0/1 draw when its first draw falls below the rate and kept otherwise, and the stream advances one or two draws per entry |
| FitOperators.BinaryVariator | driven/flux_analysis/fit_objective/variators.py:18-27 | the variator returns `Offspring(Binary, ...)`: one mutant per candidate, in order, with the rate defaulting to 0.15 |
| FitOperators.LinearMutant | driven/flux_analysis/fit_objective/variators.py:34 | the comprehension yields `Mutant(Linear, ...)`: each entry is replaced by a fresh draw when its first draw falls below the rate and kept otherwise |
| FitOperators.LinearVariator | driven/flux_analysis/fit_objective/variators.py:30-36 | the variator returns `Offspring(Linear, ...)`: one mutant per candidate, in order, with the rate defaulting to 0.15 |
| FitEvaluators.AgreementBounds | driven/flux_analysis/fit_objective/evaluators.py:29-35 | the assertion score lies between 0 and the number of keys, and reaches it exactly when the prediction matches the profile on every key |
| FitEvaluators.AgreementMissingKey | driven/flux_analysis/fit_objective/evaluators.py:32 | a key the profile lacks agrees exactly when it is predicted not essential |
| FitEvaluators.AssertionScore | driven/flux_analysis/fit_objective/evaluators.py:29-35 | the loop counts exactly the agreeing keys |
| FitEvaluators.ObjectiveTerms | driven/flux_analysis/fit_objective/evaluators.py:42-59 | one term per zipped reaction and coefficient, cut to the shorter list |
| FitEvaluators.Flags | driven/flux_analysis/fit_objective/evaluators.py:47-64 | one flag per compared key |
| FitEvaluators.FlagsCard | driven/flux_analysis/fit_objective/evaluators.py:47-64 | there are no more flags than keys |
| FitEvaluators.Exchanges | driven/flux_analysis/fit_objective/evaluators.py:56 | exactly the exchange reactions |
| FitEvaluators.Interior | driven/flux_analysis/fit_objective/evaluators.py:64 | exactly the reactions that are not exchanges |
| FitEvaluators.ExchangesSplit | driven/flux_analysis/fit_objective/evaluators.py:56 | every reaction is an exchange or not |
| FitEvaluators.Ids | driven/flux_analysis/fit_objective/evaluators.py:64 | the ids of the reactions, in order |
| FitEvaluators.FitnessBounds | driven/flux_analysis/fit_objective/evaluators.py:38-69 | a fitness lies in [0, total], and is total when the solver fails |
| FitEvaluators.EssentialProfileEvaluator | driven/flux_analysis/fit_objective/evaluators.py:38-69 | the evaluator returns `Fitness` of the model as it was on entry, and the time machine leaves the model exactly as it was |
| FitOptimization.SumZero | driven/flux_analysis/fit_objective/optimization.py:33-34 | the coefficients of an all-zero candidate sum to zero |
| FitOptimization.EvaluateMeaning | driven/flux_analysis/fit_objective/optimization.py:32-38 | an all-zero candidate scores 1000000 and 100000 per profile; any other scores its coefficient sum and, per zipped evaluator and profile, a fitness within [0, total] |
| FitOptimization.ClippedMeaning | driven/flux_analysis/fit_objective/optimization.py:41-44 | the bounder puts every entry into [0, 1], leaves a candidate already there unchanged, and is idempotent |
| FitOptimization.ZeroOneBounder | driven/flux_analysis/fit_objective/optimization.py:41-44 | the same list comes back, each entry clipped in place |
| FitOptimization.FilterMembers | driven/flux_analysis/fit_objective/optimization.py:50 | a list comprehension keeps exactly the elements that pass |
| FitOptimization.FilterAppend | driven/flux_analysis/fit_objective/optimization.py:50 | filtering keeps order across a concatenation |
| FitOptimization.CandidatesMeaning | driven/flux_analysis/fit_objective/optimization.py:50 | the candidate reactions are exactly the exchanges with lower bound at least 0, in model order |
| FitOptimization.FitProfileStrategy.constructor | driven/flux_analysis/fit_objective/optimization.py:47-60 | the strategy holds its model, candidate reactions, profiles and evaluators, and the binary or linear operators as `binary` says |
| FitOptimization.FitProfileStrategy.Evaluations | driven/flux_analysis/fit_objective/optimization.py:62-63 | one fitness vector per candidate, evaluated against the strategy's own fields |
| Adapter.CleanBiggIdDeletes | driven/generic/adapter.py:10-11 | cleaning only deletes, and an id without `bigg:` or `dsh` is kept as it is |
| Adapter.CleanIsReplace | driven/generic/adapter.py:10-11 | without a `dsh`, cleaning is removing every `bigg:` |
| Adapter.CleanBiggIdOnePass | driven/generic/adapter.py:10-11 | `bigg:atp` becomes `atp`, `dsh` disappears, and `dbigg:sh` leaves a `dsh` behind because the pass is not repeated |
| Adapter.CleanPlain | driven/generic/adapter.py:10-11 | an id without `b` or `d` is left alone |
| Adapter.ExistingMetabolite | driven/generic/adapter.py:14-40 | a found id is a model metabolite; nothing is found exactly when the MetaNetX id is missing or empty or neither candidate is in the model; the cleaned BiGG candidate is preferred, and the answer is one of the two candidates |
| Adapter.ContainsCarbon | driven/generic/adapter.py:43-46 | ValueError exactly when the formula is missing or empty; otherwise true exactly when carbon is among the elements |
| Adapter.WithoutCompartmentInverse | driven/generic/adapter.py:62 | `met_id[:-2]` undoes appending a two-character compartment |
| Adapter.FindMetaboliteInfo | driven/generic/adapter.py:49-68 | the row of the id without compartment is found directly first, then through its `bigg:`-prefixed MetaNetX id; nothing otherwise |
| Adapter.NoSpaceConcat | driven/generic/adapter.py:245-246 | joining two whitespace-free texts gives a whitespace-free text |
| Adapter.MapTokenIsWord | driven/generic/adapter.py:237-246 | each mapped token is a single non-empty word when the tables and the compartment hold no whitespace |
| Adapter.MappedEquationTokens | driven/generic/adapter.py:234-248 | the mapped equation splits into as many tokens as the equation, each the mapping of the token at the same position |
| Adapter.MapTokenPassThrough | driven/generic/adapter.py:237-246 | operators and numbers are never rewritten; an identifier becomes its stripped BiGG id, else its MetaNetX id, else itself, followed by a non-empty compartment |
| Adapter.MapEquationToBigg | driven/generic/adapter.py:221-248 | the loop's joined result is `MappedEquation`: every whitespace-separated token mapped (non-identifiers kept, identifiers translated KEGG to MetaNetX to BiGG with the compartment appended) and joined with single spaces |

## Left out

- LP and MILP solving is not modelled. The answers of `optimize`, `slim_optimize`, `pfba`, flux variability analysis, `essential_genes` and `essential_reactions` are parameters: optima, flux assignments and oracle functions. Only problem construction and the classification after a solve are modelled.
- `fix_objective_as_constraint` is modelled as one appended constraint named `fixed_objective`. cobra's name for it carries the objective's name, and an existing constraint of that name is not replaced.
- Removing variables and constraints is modelled by value. optlang removes them by object identity.
- The model does not check bound order: a reaction may hold `lower > upper`, which cobra refuses when a bound is set.
- `Metabolic.Apply` always appends for the `AddMetabolite` and `AddReaction` edits. cobra's `add_metabolites` and `add_reaction` skip an id the model already holds. GIM3E's turnover metabolites and sinks then carry the `TM_` prefix that is not checked against existing ids.
- Dictionary iteration order is taken to be model order (reactions) or insertion order (profiles, flux distributions).
- `isinstance` assertions on argument types are not modelled: arguments have their Dafny types. The one type test with a result, `FluxConstraints.__eq__` against another kind of object, is modelled with `None` for the other object.
- sympy simplifies automatically (for example `a + a` becomes `2*a`). This is not modelled; the arithmetic tree is evaluated as built. sympy's own parser is replaced by the rule tree and by a parser for names, integer literals, `+`, `*` and parentheses.
- CSV reading is not modelled: `from_csv` starts from the parsed table. pandas and numpy are sequences of rows (`Tables.Matrix`); one-dimensional arrays are not modelled.
- `Arith.Lex` skips space, tab, newline and carriage return between tokens. Python's tokenizer also skips form feed, and it ends a logical line at a newline; neither is modelled.
- `Arith.Lex` accepts a number with a leading zero such as `01`, which Python 3's tokenizer rejects, and reads only ASCII letters, digits and `_` as name characters, where Python also admits Unicode identifiers.
- `Fluxes.FromDataFrameAsWritten` follows pandas before 0.23. Since 0.23, `apply` never expands a returned list, so every non-empty frame fails the shape assertion; the pandas version is not a parameter of the model.
- `Gim3e.Combine` keeps a metabolite whose summed coefficient is 0, which cobra's `combine=True` merge drops. GIM3E merges only turnover metabolites with `TM_` ids, so a sum with an existing entry arises only for a reaction that already held such a metabolite.
- `Profile.FrameOf` reads the stored p-value array, as the corrected getter does. The code as written goes through the `p_values` getter, so it also raises ValueError when a p-value is 0 (see "## Findings").
- `ExpressionProfile.__eq__` is not modelled. Its defect without p-values goes through the p-value getter, and `Profile.PValuesAsWritten` models that getter.
- `ExpressionProfile.normalize` (log2), `FluxDistributionDiff.euclidean_distance` (sqrt), `driven/stats.py` and `golden_ratio` are left out: they depend on floating-point rounding.
- The plotting methods of the profile and of the results, and the visualization package, are left out. So are the `data_frame` properties of the result classes, which only lay out scores, with NaN for missing values.
- `src/driven/omics/fastcore.py` is not part of this model: it is an unfinished draft.
- `driven/flux_analysis/thermodynamics.py`, the profiling modules, `driven/sensitivity_analysis/` and `show_versions` are not part of this model.
- Older `ExpressionProfile`: its constructor, lookups, `to_dict`, `minmax`, `from_data_frame`, `from_csv`, `p_value_columns`, setter and deleter are the same code as the newer class, so they are modelled once, in `Profile`.
- `Profile.ExpressionProfile.Differences` follows the code as written, including the p-value column it reads (see "## Findings").
- The `imat` of `driven/flux_analysis/transcriptomics.py` prints the exception it catches. The printing is left out; the `None` it then returns is modelled.
- The newer GIMME returns the model after its `with` block has closed, so the returned model is the unchanged input model.
- `FitProfileStrategy.run`, the inspyred NSGA-II and Pareto machinery and `HeuristicOptimization` are left out. The random number generator is a stream of draws passed in.
- `FitOptimization.FitProfileStrategy`: `model.genes` is passed in as a list of gene ids. The objective built from a candidate is maximised, which is optlang's default direction for a new objective.
- `FitEvaluators.ObjectiveTerms` walks the zipped reactions and coefficients in order. The source builds a dictionary for `set_linear_coefficients`, where order plays no part.
- Adapter: the mixin classes `ModelModificationMixin`, `GenotypeChangeModel`, `MediumChangeModel` and `MeasurementChangeModel` are left out, because they mutate cameo models through gnomic and MetaNetX. `full_genotype` is left out for the same reason.
- Adapter: a metabolite's `elements` is given as a map rather than parsed from its formula.
- `driven/_cobra_ext.py` installs its functions on cobra's classes at import time. That monkey-patching is not modelled; the functions themselves are.

## Findings

Each row below names a member that models the code as written and a lemma showing the discrepancy. It also names the corrected definition and the property proved about it; the rest of the model uses the corrected definition. Nothing was executed.

| source | as written | input that shows it | evidently intended | confidence | as-written member | corrected member |
|---|---|---|---|---|---|---|
| src/driven/data_sets/expression_profile.py:96-97 | with one identifier, the shape check compares the number of rows with the number of conditions | one identifier and two conditions, a 1×2 matrix: rejected | a single identifier needs one row of `len(conditions)` values | high, not executed | Profile.ShapeCheckAsWritten, Profile.SingleIdentifierShape | Profile.ShapeOk, Profile.ShapeCheckAgrees |
| src/driven/data_sets/expression_profile.py:267-268 | the getter tests `self._p_values.all()`, which is false when any p-value is 0 | the p-value matrix `[[0.0]]`: ValueError | the getter fails only when no p-values are stored | high, not executed | Profile.PValuesAsWritten, Profile.ZeroPValueRefused | Profile.PValuesOf |
| driven/data_sets/expression_profile.py:205 | the older getter tests `not self._p_values`, which raises for an array of two or more entries | a 2×1 p-value matrix, two identifiers with one p-value each: ValueError | the getter fails only when no p-values are stored | high, not executed | LegacyProfile.LegacyPValuesAsWritten, LegacyProfile.LegacyPValuesRefused | Profile.PValuesOf |
| driven/data_sets/expression_profile.py:179 | the older `data_frame` adds the p-value array to the expression array | one identifier, two conditions and their p-value: the 1×2 and 1×1 arrays are added, and the 1×3 frame is never built | the p-value columns follow the expression columns | high, not executed | LegacyProfile.LegacyFrameAsWritten, LegacyProfile.LegacyFrameRefused, LegacyProfile.LegacyFrameExample | Profile.FrameOf, Profile.RoundTripWithPValues |
| driven/data_sets/normalization_functions.py:26 | `and` becomes `+` and `or` becomes `*`, so `or` binds tighter than `and` | `a and b or c` evaluates to `min(a, max(b, c))` | `max(min(a, b), c)`, the rule's meaning | high, not executed | RuleText.Or2MinAnd2Max, RuleText.PrecedenceInverted | RuleText.Or2MinAnd2MaxFixed, RuleText.FixedMixed, RuleText.FixedShow |
| driven/data_sets/expression_profile.py:278 | `str.replace` rewrites `and` and `or` inside gene ids too | the gene `cor1` becomes `c+1`, whose symbol `c` has no value, so the rule is not evaluated | only the operator words are rewritten | high, not executed | RuleText.TextMapGeneToRxn, RuleText.GeneIdRewritten | Gpr.MapGeneToRxn, Gpr.MapGeneToRxnMeaning |
| driven/flux_analysis/transcriptomics.py:95 | `gimme` passes its cutoff and normalization positionally, so they land in `map_by` and `cutoff` | a complex of `ga` and `gb` with only `ga` profiled: ValueError, because the function standing in for the missing value cannot be substituted | `map_by="or2max_and2min"` and `cutoff` given by name | medium, not executed | Transcriptomics.PositionalGimmeRaises, Transcriptomics.PositionalGimmeExample | Transcriptomics.IntendedGimmeProfile, Transcriptomics.IntendedGimmeExample |
| driven/flux_analysis/transcriptomics.py:137 | `imat` passes the normalization function positionally as `map_by`, so no known policy applies | a complex of genes at 2 and 3 is worth 6, their product, not 2 | `map_by="or2max_and2min"` and a cutoff of 0 | medium, not executed | Transcriptomics.PositionalImatAt, Transcriptomics.PositionalImatExample | Transcriptomics.IntendedImatProfile, Transcriptomics.IntendedProfileAt, Transcriptomics.IntendedImatExample |
| driven/flux_analysis/gim3e.py:60 | `exp_max` is `minmax()[0]`, the smallest value | genes at 1 and 5: the reaction of the gene at 5 gets the penalty -4, the other 0 | the largest value, `minmax()[1]`, so that penalties are not negative | high, not executed | Gim3e.ExpMaxAsWritten, Gim3e.AsWrittenPenaltyNonPositive, Gim3e.PenaltyExample | Gim3e.ExpMax, Gim3e.PenaltyNonNegative |
| src/driven/fluxomics/fluxomics.py:42-43 | relaxed bounds are `lb - lb*relax` and `ub + ub*relax`, which move towards zero when the bound is negative; the older `fba` has the same formula at driven/flux_analysis/fluxomics.py:48 | with relax 0.01 the interval `[-10, -5]` becomes `[-9.9, -5.05]`, and the single value -10 becomes the empty interval `[-9.9, -10.1]` | widening by the bound's absolute value | high, not executed | Fluxomics.RelaxedAsWritten, Fluxomics.RelaxedAsWrittenTightens | Fluxomics.Relaxed, Fluxomics.RelaxedContains, Fluxomics.RelaxedAgrees |
| driven/flux_analysis/fluxomics.py:54 | `FluxBasedFluxDistribution` is built with two arguments where its constructor takes three; the newer `fba` makes the same call at src/driven/fluxomics/fluxomics.py:49 | any call: TypeError | the result built from the solution, the model and the constraints | high, not executed | Fluxomics.FluxBasedFromTwo | Fluxomics.FluxBased, Fluxomics.FbaOfMeaning |
| driven/flux_analysis/fit_objective/variators.py:24-34 | an entry keeps its value when the draw falls below the mutation rate | a mutation rate of 1.0 leaves every candidate unchanged | an entry mutates with probability `mutation_rate` | medium, not executed | FitOperators.MutationAsWritten, FitOperators.MutationAsWrittenInverted | FitOperators.Mutation, FitOperators.MutantEntries |
| driven/flux_analysis/fit_objective/generators.py:33 | the linear generator's cap tests `count(1)`, which a draw in `[0, 1)` never increases | `max_objectives` 0, three positions and every draw 0.75: two entries are 0.75 where the cap admits one | at most `max_objectives + 1` selected entries, as the binary generator | medium, not executed | FitOperators.GeneratedAsWritten, FitOperators.LinearCapAsWrittenInert | FitOperators.Generated, FitOperators.GeneratedShape, FitOperators.IndividualMeaning |
| src/driven/data_sets/expression_profile.py:314 | `differences` reads p-value column `i - 1` of the pair list, which is not the pair of conditions `i - 1` and `i` | three conditions: the entry for conditions 2 and 3 reads the p-value of the pair (1, 3) | the p-value of the consecutive pair (`i - 1`, `i`) | medium, not executed | Profile.DifferencesOf, Profile.DifferencesWrongPair | Profile.ConsecutiveDifferencesOf, Profile.ConsecutiveColumn, Profile.ConsecutiveRightPair |
| src/driven/data_sets/fluxes.py:119-125 | `apply` with a row function that returns a list gives a one-dimensional array of lists, unless pandas expands the lists into columns, which pandas before 0.23 does only when the frame is as wide as the list is long; driven/data_sets/fluxes.py:31-33 is the same code | a "measurement" frame with the columns `value`, `deviation` and `unit` and one row: AssertionError from the `(n, 2)` shape check | the limits read from the named columns, whatever other columns the frame holds | medium, not executed | Fluxes.FromDataFrameAsWritten, Fluxes.ExtraColumnRefused | Fluxes.FromDataFrame, Fluxes.FromDataFrameOk, Fluxes.RoundTrip |
