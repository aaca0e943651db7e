# Parameter consistency for the same-sign top / monotop dark-matter scans

This project models, in Dafny, the core of the scripts that prepare and
collect the MadGraph cross-section scans of a dark-matter model in which a
vector mediator V couples to a top and an up quark (coupling a_r) and to a
pair of dark fermions (coupling g). It covers:

- **the parameter point** (`Parameters`, from `ParameterSpace.py`). A point
  carries the masses mV, mDM and m_top, the coupling a_r, and the three
  quantities g, the total width G_tot and the invisible branching ratio BR.
  Any of those three may be unset (NaN in the original; `None` here). The
  module has the phase-space factors and the visible and invisible partial
  widths. It derives g, G_tot and BR from whichever of them is given. A
  quantity that was already set must agree with its recomputed value under
  numpy's `isclose`. It also has the canonical point name and the `==` /
  `!=` comparison used to check the point against MadGraph's result;
- **one cross-section run** (`MadgraphRun`, from `calculate_MG_xsection.py`).
  This covers the command-line checks, the choice of process block from the
  signal name, and the MadGraph deck written for the resolved point. It
  also covers the reading of the banner MadGraph leaves behind, the JSON
  record written from it, and the final comparison of the analytic point
  with MadGraph's;
- **the exclusion border of the limit plots** (`LimitBorder`, from
  `make_plots.py`). For each mass with an excluded point (limit at most 1)
  the border takes the smallest coupling, masses ascending. It also covers
  the clamp applied to implausible limit values;
- **the wide results table** (`ResultsTable`, from
  `make_results_table.py`). Records are grouped by process, and the groups
  are merged into one table with a cross-section column per process. The
  shared physics columns come from the first process, rounded to six
  decimals. The header is sorted.

Supporting modules: `Results` has `Option` (the NaN sentinel) and `Result`
(a computation that may end the program). `RealMath` has numpy's `isclose`,
Python 2's `round(x, 6)`, and a `MathLib` value that stands for `math.pi` and
`math.sqrt`. `Strings` has the substring test `in`, `str.split()` and
`sorted()` of strings.

Floating point is modelled as exact real arithmetic. Every way the
original ends the program is an `Err` value: an exception, or `sys.exit(1)`
after an error message. Division by zero is `ZeroDivision`.
`math.sqrt` of a negative number is `MathDomain`, because Python raises
rather than returning NaN. When several failures are possible, the first
one in Python's evaluation order is reported. For the banner this is the
first line that fails and, within it, the first failing key in the order
the script tests them (`MadgraphRun.FirstBadLineReported`,
`MadgraphRun.FirstFailingKeyReported`).

The error messages of `ParameterSpace.py` ("calculated ... incompatible
with already set one", lines 132, 158 and 170) imply that every preset
quantity is cross-checked against its recomputed value. In the points below
the code departs from that, or from what a reader would expect of it, and
the model follows the code:

- A preset value is not always cross-checked. With g set, the total width
  is computed from the preset total width itself, so g is never checked
  against it (`Parameters.CouplingUncheckedAgainstWidth`,
  `Parameters.MismatchedCouplingAccepted`). With the width and BR set but
  no g, BR is not checked either (`Parameters.BranchingUncheckedAgainstWidth`).
- One would expect resolving twice to be a no-op, but in two cases it is
  not. First, a BR-driven point with a_r = 0 resolves to a total width of
  0, and resolving that again divides by zero
  (`Parameters.ZeroWidthNotIdempotent`). Second, a point given BR and the
  width but no g takes its g from the width and never compares BR; the
  resolved point has g set, so the second run recomputes BR and exits when
  the given BR disagrees (`Parameters.PresetBranchingNotIdempotent`).
  Idempotence is proved outside these two cases (`Parameters.Idempotent`).
- In `G_invis`, the branch for a point with only BR set evidently means to
  derive g first, but it calls `calculate_g` without `self.`, which raises
  `NameError` (`Parameters.GInvis`,
  `Parameters.CalculateGTot`). `calculate_all` never reaches that branch.

## Model

| member | source | states |
|---|---|---|
| Parameters.Set | ParameterSpace.py:29-42 | A setter gives its field the value and leaves every other field as it was. |
| Parameters.Name | ParameterSpace.py:60-69 | The name is mV, mDM and a_r, plus one more token for the first set one of BR, g and G_tot, in that priority, with the printf precision of each. |
| Parameters.Divide | ParameterSpace.py:92-98 | The divisions in r_t, r_chi and the BR share succeed exactly when the divisor is non-zero, and raise ZeroDivision otherwise. The quotient times the divisor gives back the dividend. |
| Parameters.VisiblePhaseSpace | ParameterSpace.py:100-102 | phi_vis fails only for mV = 0. It is never negative, and it is zero exactly when m_top equals mV in magnitude. |
| Parameters.InvisiblePhaseSpace | ParameterSpace.py:104-106 | phi_invis is defined exactly when mV is non-zero and 2 mDM is at most mV in magnitude. Otherwise it is ZeroDivision for mV = 0 and a math-domain error above the threshold. It is non-negative, and zero exactly at the threshold. |
| Parameters.VisibleWidth | ParameterSpace.py:108-110 | G_vis fails only for mV = 0. It is non-negative for positive mV, and zero exactly when a_r = 0 or m_top equals mV in magnitude. |
| Parameters.GInvis | ParameterSpace.py:112-123 | G_invis is G_tot - G_vis when the width is set. Otherwise, with g set, it is g^2 (mV / 12 pi) phi_invis. With only BR set it raises NameError; with nothing set it exits. |
| Parameters.Check | ParameterSpace.py:157-159 | A computed value passes exactly when nothing was preset or the preset is isclose to it. The error carries the field, the preset and the computed value. |
| Parameters.CalculateGTot | ParameterSpace.py:125-136 | Only G_tot changes. A preset width is kept as it is, since it is compared with itself. With g driving, the new width is G_vis + G_invis. The possible errors are listed by case. |
| Parameters.CouplingSquared | ParameterSpace.py:142-149 | g^2 comes from the width when the width is set, else from BR, else it is an error. With the width, the invisible width at g^2 equals G_tot - G_vis. With BR, that invisible width times (1 - BR) equals BR G_vis. BR = 1 divides by zero. |
| Parameters.CouplingFromWidth | ParameterSpace.py:143-144 | The width route succeeds exactly below the kinematic threshold with mV non-zero. Its error kinds are given. The g^2 it returns reproduces G_tot - G_vis. |
| Parameters.CouplingFromBranching | ParameterSpace.py:145-146 | The BR route divides by zero for BR = 1 and at the threshold, and is a math-domain error above it. The g^2 it returns satisfies invisible width times (1 - BR) = BR G_vis. |
| Parameters.CouplingAtThreshold | ParameterSpace.py:142-146 | At 2 mDM = mV the coupling cannot be derived from the width or from BR: phi_invis is zero. |
| Parameters.CouplingAboveThreshold | ParameterSpace.py:142-146 | Above the threshold the coupling cannot be derived: sqrt of a negative number. |
| Parameters.CalculateG | ParameterSpace.py:138-161 | Only g changes. The new g is non-negative and its square is the derived g^2. A preset g must be isclose to it. An inconsistency error reports the preset and the computed root. |
| Parameters.CalculateBR | ParameterSpace.py:163-173 | Only BR changes. The new BR times (G_vis + G_invis) is G_invis. A preset BR must be isclose to it. |
| Parameters.CalculateAll | ParameterSpace.py:175-184 | With no driver the point is unchanged. Otherwise a success resolves all three quantities, keeps the masses and a_r, and keeps every preset quantity close to its resolved value. |
| Parameters.ResolutionRelations | ParameterSpace.py:175-184 | A resolved point satisfies G_tot = G_vis + G_invis(g) and BR G_tot = G_tot - G_vis, except for the unchecked presets above. |
| Parameters.CouplingDrivenRelations | ParameterSpace.py:176-178 | The g-driven path yields widths that add up and a balanced BR. |
| Parameters.BranchingDrivenRelations | ParameterSpace.py:179-181 | The BR-driven path yields widths that add up and a balanced BR. |
| Parameters.WidthDrivenRelations | ParameterSpace.py:182-184 | The width-driven path yields widths that add up and a balanced BR. |
| Parameters.BranchingDrivenWidth | ParameterSpace.py:179-181 | From BR alone, the resolved width satisfies G_tot (1 - BR) = G_vis. |
| Parameters.FixedPoint | ParameterSpace.py:175-184 | A resolved, balanced point with a non-zero width resolves to itself. |
| Parameters.FixedPointShare | ParameterSpace.py:163-173 | With BR unset, a balanced point's BR is recomputed exactly. |
| Parameters.Idempotent | ParameterSpace.py:175-184 | Resolving a resolved point gives the same result, outside the unchecked-preset and zero-width cases. |
| Parameters.PresetBranchingNotIdempotent | ParameterSpace.py:175-184 | The point mV = 1, a_r = 0, G_tot = 1, BR = 0.5 without g resolves, keeping BR = 0.5 unchecked. Resolving the result again takes the g path and fails with an inconsistency: BR 0.5 given, 1 computed. |
| Parameters.ZeroWidthNotIdempotent | ParameterSpace.py:175-184 | The BR-driven point mV = 1000, a_r = 0, BR = 0.5 resolves to width 0, and resolving it again fails with ZeroDivision. |
| Parameters.CouplingRoundTrip | ParameterSpace.py:175-184 | Resolve from g. Restarting from the resulting width alone gives back the same g and BR. |
| Parameters.BranchingRoundTrip | ParameterSpace.py:175-184 | Resolve from BR. Restarting from the resulting width alone gives back the same g and BR. |
| Parameters.WidthRoundTrip | ParameterSpace.py:182-184 | A consistent resolved point is recovered in full from its masses, a_r and width. |
| Parameters.WidthRecoversCoupling | ParameterSpace.py:138-161 | Below the threshold, a point whose widths add up gets its own non-negative g back from its width. |
| Parameters.CouplingUncheckedAgainstWidth | ParameterSpace.py:125-136 | With g and the width both set, the result does not depend on g. |
| Parameters.MismatchedCouplingAccepted | ParameterSpace.py:125-136 | The point g = 0, G_tot = 1, mV = 1 resolves without error although its widths do not add up. |
| Parameters.BranchingUncheckedAgainstWidth | ParameterSpace.py:182-184 | With the width and BR set and no g, the result does not depend on BR, and BR stays as given. |
| Parameters.WidthCouplingIgnoresBranching | ParameterSpace.py:142-146 | When the width is set, g is derived from the width and BR takes no part. |
| Parameters.DarkMassUnusedWithWidth | ParameterSpace.py:112-115 | With g and the width set, mDM takes no part in the derivation. |
| Parameters.MasslessMediatorRejected | ParameterSpace.py:92-98 | Any driven point with mV = 0 fails with ZeroDivision. |
| Parameters.UnitBranchingRatioRejected | ParameterSpace.py:146 | Deriving from BR = 1 fails with ZeroDivision. |
| Parameters.ThresholdRejected | ParameterSpace.py:144-146 | Deriving g at exactly 2 mDM = mV fails with ZeroDivision. |
| Parameters.ForbiddenDecayRejected | ParameterSpace.py:104-106 | Above the threshold, every driven derivation fails with a math-domain error. |
| Parameters.WidthBelowVisibleRejected | ParameterSpace.py:151-153 | A width below G_vis gives a negative g^2 and the "unphysical" exit. |
| Parameters.ResolvedNameCarriesBranching | ParameterSpace.py:60-69 | A resolved point is always named after its BR. |
| Parameters.EqualSelfIffResolved | ParameterSpace.py:9-17 | A point equals itself exactly when none of g, G_tot and BR is NaN, and `!=` is the negation. |
| Parameters.Equal | ParameterSpace.py:9-12 | `==` (numpy's `allclose` over the fields) can hold only when g, G_tot and BR are all set, on both points: a NaN is never close to anything. |
| Parameters.NotEqual | ParameterSpace.py:14-17 | `!=` is exactly the negation of `==`, so it holds whenever either point has an unset quantity. |
| Parameters.FreshPoint | ParameterSpace.py:19-26 | A fresh point has mV, mDM and a_r zero and m_top = 172, with g, G_tot and BR unset. It has no driver, so resolving it leaves it unchanged. Its name has only the three mass and coupling tokens, and it is unequal to itself. |
| Parameters.PointWidths | ParameterSpace.py:100-110 | phi_invis succeeds exactly when mV is non-zero and 2 mDM is at most mV in magnitude, and is then non-negative. phi_vis and G_vis succeed exactly when mV is non-zero. G_vis is non-negative for positive mV and zero for a_r = 0. |
| RealMath.IsCloseReflexive | ParameterSpace.py:131 | A value recomputed exactly always passes `isclose`. |
| RealMath.IsCloseAsymmetric | ParameterSpace.py:131 | `isclose` is not symmetric: some a, b are close one way round only. |
| RealMath.SqrtOfSquare | ParameterSpace.py:155 | The root of x^2 is x for non-negative x. |
| RealMath.Round6 | make_results_table.py:59 | round(x, 6) is a whole number of millionths within half a millionth of x. A tie (exactly half a millionth away) is rounded away from zero, as Python 2 does. |
| Strings.ContainsIff | calculate_MG_xsection.py:136-148 | The substring test holds exactly when the text occurs at some position. |
| Strings.Words | calculate_MG_xsection.py:135 | split() gives non-empty runs without separators that spell the line with its separators removed. |
| Strings.WordsOfBlank | calculate_MG_xsection.py:135 | A line of separators only splits into no words. |
| Strings.WordsOfRun | calculate_MG_xsection.py:135 | Separators, then a maximal run of non-separators, then the rest: the run is the first word and the remaining words are those of the rest. Runs are never split, so "ab" gives the single word "ab". |
| Strings.Sorted | make_results_table.py:65 | sorted() of the keys lists each key once, strictly ascending. |
| MadgraphRun.SelectProcess | calculate_MG_xsection.py:74-93 | The process block is chosen by substring in the priority tt_excl, onshell, offshell, monotop. A name matching none gets no block. |
| MadgraphRun.Settings | calculate_MG_xsection.py:99-106 | There are exactly five set lines. Each of Mpsi, ar, gg and MV is set once, to the point's mDM, a_r, g and mV; no line sets any of them to anything else. WV is set to Auto exactly when automatic width is asked for; otherwise it is set only to the point's width. |
| MadgraphRun.Deck | calculate_MG_xsection.py:41-108 | The deck starts with the preamble and outputs and launches the run under the point's name. |
| MadgraphRun.DeckProcessLines | calculate_MG_xsection.py:74-93 | The deck generates exactly the selected block's two processes, and nothing when no block is selected. |
| MadgraphRun.DeckSettingLines | calculate_MG_xsection.py:98-107 | The only parameter settings in the deck are the five set lines. |
| MadgraphRun.DeckSettings | calculate_MG_xsection.py:99-106 | In the whole deck, each of Mpsi, ar, gg and MV is set, and only to the point's mDM, a_r, g and mV. WV is Auto exactly when the width is automatic, and otherwise set only to the point's width. |
| MadgraphRun.Pick | calculate_MG_xsection.py:137-149 | columns[i] and columns[-1] exist exactly when the line has enough columns, and are then the i-th and the last column; otherwise IndexError. |
| MadgraphRun.Reading | calculate_MG_xsection.py:135-149 | A line's value for a key is float() of its split column 2 for the total width, column 0 for BR, the last column for the cross-section and column 1 for every parameter. A line without that column is an IndexError, and a column that is no number is a conversion error. |
| MadgraphRun.Store | calculate_MG_xsection.py:136-147 | A banner value lands under its own key and no other. |
| MadgraphRun.ReadKeys | calculate_MG_xsection.py:136-149 | Matching a line against keys in order stores the value of every matching key and leaves the others alone. An error comes from a matching key whose column is missing or does not convert. |
| MadgraphRun.FirstFailingKeyReported | calculate_MG_xsection.py:136-149 | The error of a line is the reading error of the first key, in the order the script tests them, whose marker the line carries and whose value cannot be read. |
| MadgraphRun.ReadLine | calculate_MG_xsection.py:135-149 | A line fails exactly when some marker it carries lacks a readable value, with the error of the first such key in the script's order. Otherwise every marked key takes that line's value. |
| MadgraphRun.ReadBanner | calculate_MG_xsection.py:131-149 | The banner is read from a fresh point, line by line; only a missing column or a failed conversion stops it (that every such line does is `MadgraphRun.BadLineStops`). |
| MadgraphRun.LastMatch | calculate_MG_xsection.py:134-149 | The index of the last banner line carrying a key's marker, if any. |
| MadgraphRun.LastMatchWins | calculate_MG_xsection.py:134-149 | After reading, each key holds the value of the last line with its marker, or the fresh point's value if there is none. |
| MadgraphRun.WellFormedBannerReads | calculate_MG_xsection.py:134-149 | A banner whose marked lines all have readable values is read without error. |
| MadgraphRun.BadLineStops | calculate_MG_xsection.py:134-149 | Conversely, any marked line whose value cannot be read makes the whole read fail, even when a later line with the same marker is readable. |
| MadgraphRun.StopsAfter | calculate_MG_xsection.py:134-149 | Once the first n lines fail, the rest of the banner is not read: the result is that of the n lines. |
| MadgraphRun.FirstBadLineReported | calculate_MG_xsection.py:134-149 | The error reported is the one of the first failing line, read from the state the clean lines before it left. |
| MadgraphRun.ReadOutput | calculate_MG_xsection.py:124-166 | The record holds the banner's point, the cross-section from the last weight line, and the signal. It is filed under the banner point's own name. A banner without a weight line fails. |
| MadgraphRun.RecordNamedAfterBranching | calculate_MG_xsection.py:159-162 | The record's file name ends in a BR token exactly when the banner has a BR line. |
| MadgraphRun.NameTagBranching | ParameterSpace.py:60-69 | A name's fourth token is the BR token exactly when BR is set. |
| MadgraphRun.Convert | calculate_MG_xsection.py:209-224 | float() of an option succeeds exactly when the text is a number. |
| MadgraphRun.SetGiven | calculate_MG_xsection.py:217-224 | An option that was given sets its field; one not given leaves the point alone. |
| MadgraphRun.InputPoint | calculate_MG_xsection.py:207-224 | The point is built exactly when mV, mDM and a_r convert and every given one of g, BR and the width converts. mV, mDM and a_r are their converted options; g, BR and the width are their converted options when given and unset otherwise; m_top is the default. It has a driver exactly when g, the width or BR was given, and its width is unset exactly when the width is automatic. A failure is the conversion error of an option that does not convert, mV first. |
| MadgraphRun.Analytic | calculate_MG_xsection.py:226-228 | A bad option is reported as is. Otherwise the analytic point is exactly `calculate_all` of the command-line point, with its error if it fails. It keeps the command line's masses and a_r, is close to every given quantity and is resolved whenever a driver was given. Its widths add up unless both g and the width were given, and its BR balances unless only the width and BR were given. |
| MadgraphRun.Execute | calculate_MG_xsection.py:203-249 | With no driver the run exits before writing anything, and a failed derivation ends it with that error. A deck is written exactly when derivation succeeds. Once the deck is written, a record is written exactly when the banner is read, and it is the record read from the banner; a read error ends the run with that error. The run succeeds only if the record equals the analytic point. A mismatch still leaves the record behind. |
| MadgraphRun.IncompleteBannerMismatch | calculate_MG_xsection.py:131-149 | A banner that lacks the coupling, width or BR line leaves that quantity NaN in MadGraph's point, so a run that writes its record ends in the mismatch exit. |
| MadgraphRun.MatchingBannerSucceeds | calculate_MG_xsection.py:243-249 | A run whose record reproduces the analytic point ends without error. |
| MadgraphRun.DeckOfRun | calculate_MG_xsection.py:213-236 | A run's deck comes from a command line whose point was built, and sets the masses, a_r, g and width of `calculate_all` of that point, which is resolved. The width is fixed exactly when one was given on the command line. |
| LimitBorder.Clamp | make_plots.py:73-75 | A limit above 1000 becomes 500; any other limit is kept. |
| LimitBorder.Zip | make_plots.py:83 | zip stops at the shortest list and pairs the i-th elements. |
| LimitBorder.Group | make_plots.py:81-88 | The dictionary has a key for exactly the masses with an excluded entry, each with exactly the ordinates of its excluded entries. |
| LimitBorder.Min | make_plots.py:92 | min() returns an element no larger than any other. |
| LimitBorder.SortedDistinct | make_plots.py:91 | sorted() of the keys has the same elements, strictly ascending. |
| LimitBorder.AscendingUnique | make_plots.py:91 | A strictly ascending list is determined by its elements. |
| LimitBorder.BorderMasses | make_plots.py:91 | The border's masses are those with an excluded entry, strictly ascending. |
| LimitBorder.GetLimitBorder | make_plots.py:80-93 | There is one value per mass with an excluded entry. Each value is the ordinate of an excluded entry at that mass and no larger than any other such ordinate. |
| LimitBorder.BorderDependsOnExcludedOnly | make_plots.py:83-93 | Entries with the same excluded points give the same border. |
| LimitBorder.BorderOrderIndependent | make_plots.py:80-93 | Reordering the entries does not change the border. |
| LimitBorder.ClampKeepsBorder | make_plots.py:73-93 | Clamping the limits never moves the border: the clamp only touches limits above 1000, which are not exclusions. |
| LimitBorder.BorderTruncates | make_plots.py:80-93 | Only the first min(len) values of each list are read, and the mass list takes no part. |
| ResultsTable.AddRecord | make_results_table.py:31-43 | One pass of the first loop adds the record's process, if new, and leaves the other processes' groups alone. |
| ResultsTable.AddRecordGroups | make_results_table.py:30-43 | One pass of the first loop preserves the grouping invariant. |
| ResultsTable.ColumnAppend | make_results_table.py:37-43 | Appending a record extends a field's list by the record's value exactly when the record has that process and field. |
| ResultsTable.GroupRecords | make_results_table.py:30-43 | Grouping fails exactly when some record has no process. Otherwise there is one group per process, holding every field other than process and m_top with its values in record order. |
| ResultsTable.Round | make_results_table.py:59 | round() maps a number to round(x, 6) of it, within half a millionth, and leaves NaN as NaN. |
| ResultsTable.RowError | make_results_table.py:56-63 | A row fails exactly when some field of the first process lacks a value that round() accepts, or some process lacks its cross-section. |
| ResultsTable.RowsError | make_results_table.py:56-63 | The second loop fails exactly when some row is incomplete, with that row's error. |
| ResultsTable.CompleteRows | make_results_table.py:56-63 | The merge completes exactly when every row is complete. |
| ResultsTable.Merge | make_results_table.py:45-63 | The merge succeeds exactly when every process is a string, there is a first process with cross-sections, and every row is complete. A non-string process and an empty input fail as in the script. |
| ResultsTable.Columns | make_results_table.py:46-63 | The columns are one cross-section column per process plus the first process's shared fields. Each has the first process's row count; shared fields are rounded and cross-sections copied. |
| ResultsTable.MergedCrossSections | make_results_table.py:62-63 | Every process's cross-section column holds its first n cross-sections, n being the first process's count. |
| ResultsTable.MergedSharedField | make_results_table.py:57-61 | Every shared field of the first process becomes a column of its rounded values. |
| ResultsTable.MergeReadsOnlyCrossSections | make_results_table.py:49-63 | Of the other processes only the cross-sections are read. |
| ResultsTable.Transpose | make_results_table.py:69 | zip(*columns) has as many rows as the shortest column, and row i, position j is column j's i-th value. |
| ResultsTable.Write | make_results_table.py:65-69 | The header is the column names, strictly ascending, and each row lists the columns' values in header order. |
| ResultsTable.WriteRowCount | make_results_table.py:69 | Columns of equal length give that many rows. |
| ResultsTable.Tabulate | make_results_table.py:30-69 | The table fails with KeyError exactly when some record has no process, and with StopIteration when there are no records. |
| ResultsTable.TabulateHeader | make_results_table.py:30-69 | The header holds exactly one cross-section column per process and the shared fields of the first process. |
| ResultsTable.ColumnNames | make_results_table.py:46-53 | The merged column names, described in terms of the records. |
| ResultsTable.TabulateCrossSection | make_results_table.py:55-69 | There is a row for every cross-section of the first process. A process's column holds, in row i, that process's i-th cross-section in record order. |
| ResultsTable.TabulateSharedField | make_results_table.py:55-69 | A shared column holds, in row i, the first process's i-th value of that field, rounded. |

## Left out

- Printing, the timer, folder creation and the warnings that are only printed are left out. So is the text rendering of `%e`, `%.0f`, `%.1f` and `%.2f`: the deck and the point name keep the value and the precision.
- Running MadGraph (`run_MG_config`) is left out: the banner it would produce is an input, a list of lines. Opening and closing files and the JSON and CSV encoders are left out too: a record is a value, and the table is a header and rows.
- `float()` of a string is a parameter `parse` that returns a number or nothing. Python's exact grammar for numeric literals is not modelled.
- `math.pi` and `math.sqrt` are not computed. They are a `MathLib` value that only promises pi > 0 and that the root is non-negative and squares back.
- Floating point is exact real arithmetic. Rounding, overflow, infinities and NaN arithmetic are not modelled; NaN only marks an unset quantity.
- RealMath.Round6: rounds the exact real value half away from zero, not the binary float, so cases where the float representation decides the direction are not covered.
- MadgraphRun.Execute: the comparison assumes both points list their fields in the same order, as two instances of the same class do.
- ResultsTable.Tabulate: which process is first depends on dictionary order, so the first process is a parameter. Its precondition only asks that it is one of the processes read.
- ResultsTable.RowError: when a row has several faults, which error Python raises first depends on dictionary order. The model reports a short list before a string, and shared fields before cross-sections.
- ResultsTable.Tabulate: the files are read in sorted order of their names. The model takes the records already in that order.
- Getter methods and the printing methods of `ParameterSpace`, the plotting in `make_plots.py` other than the border and the clamp, and the batch and plotting scripts are outside this model.
