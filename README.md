# neo4cdisc post-processing, modelled in Dafny

This project models the metadata-driven core of neo4cdisc's
`SDTMDataProvider.get_data_sdtm`. The method turns the rows extracted from a
Neo4j graph into one SDTM domain table. The model covers the following steps:

- it injects the `Study` class into the class list;
- it drops classes that were never materialised during reshaping;
- it drops classes the user role may not see, or raises when the role is unknown;
- it marks the optional classes;
- it prunes the relationships that touch an excluded class;
- it builds the first-wins rename map and renames the columns;
- it computes the column order from the declared `Order` values, where an undeclared order or an order of 0 counts as 1000;
- it pads the missing columns with nulls and projects onto that order;
- it normalises the `SortOrder` metadata into sort keys, keeps the keys that exist and sorts the rows.

Three smaller pieces are modelled beside it:

- the list logic of `CdiscStandardLoader.link_cdisc`, which builds each domain's variable order with the `--SEQ` rule and numbers the variables from 1, and the arrow choice of `propagate_relationships`;
- `get_compare_tables`, which matches file names to requested domains without regard to case;
- the requirements loop of `setup.py`, which separates git `#egg=` lines from plain requirements.

Files:

- `common.dfy` (module `Common`): Option and Result, order-preserving filtering, and the Python string operations the source uses: `split`, `upper`, `find`, `startswith` and `<` on strings. It also defines `Join`, which the source never calls; it serves only to pin down what `Split` returns.
- `sorting.dfy` (module `Sorting`): one reference definition of sorting (insertion sort) with its permutation and order lemmas. Python's `sorted` and pandas' `sort_values` are specified through it.
- `sdtm_filters.dfy` (module `SdtmFilters`): the class-list and relationship filters.
- `sdtm_columns.dfy` (module `SdtmColumns`): renaming, column order, padding, projection, sort keys and the row sort.
- `sdtm_provider.dfy` (module `SdtmProvider`): `get_data_sdtm` as a whole.
- `cdisc_standard_loader.dfy`, `comparison_utils.dfy` and `setup_requirements.dfy`: the three smaller pieces.

Inputs the source obtains from elsewhere are parameters here:

- the metadata record, the labels of invalid classes and the rows of the role query, because their queries run inside the graph store;
- the generic extractor `get_data_generic`, as a function from the request to a table;
- the optional-class marker `OCLASS_MARKER`, whose defining library is not part of this model;
- the folder listing and the lines of `requirements.txt`.

Tables are positional: a list of column labels and rows of cells. The extractor is asked only for `rdfs:label`, so a cell is a label or null (`Option<string>`).

Two behaviours of the code are worth stating outright:

- Columns with equal effective order are ordered by name. The name sort runs first, and `_sorter` resets `none_count` on every call, so every unset order is exactly 1000 (cdisc_data_providers/sdtm_data_provider.py:73-84).
- A role that exists but has no restriction yields one row with a null class, so it does not raise (cdisc_data_providers/sdtm_data_provider.py:245-251).

## Model

| member | source | states |
|---|---|---|
| SdtmFilters.InjectStudy | cdisc_data_providers/sdtm_data_provider.py:31 | Study is in the result; it is prepended exactly when absent (length grows by one iff absent); the original classes follow unchanged |
| SdtmFilters.InjectStudyIdempotent | cdisc_data_providers/sdtm_data_provider.py:31 | injecting Study twice is injecting it once |
| SdtmFilters.MarkOptional | cdisc_data_providers/sdtm_data_provider.py:43-45 | element-wise: the marker is appended to a class iff the required list is non-empty and the class is not in it; length kept |
| SdtmFilters.MarkOptionalSpec | cdisc_data_providers/sdtm_data_provider.py:43-45 | every label starts with its class, and (non-empty marker) differs from it exactly when the class is optional and some class is required |
| SdtmFilters.Flagged | cdisc_data_providers/sdtm_data_provider.py:227-229 | the flagged list holds exactly the input classes named by some query row |
| SdtmFilters.CollectFlagged | cdisc_data_providers/sdtm_data_provider.py:227-229 | the append loop over query rows computes `Flagged` |
| SdtmFilters.PartitionByFlags | cdisc_data_providers/sdtm_data_provider.py:225-232 | excluded classes are input classes named by a row; kept classes are not; every class lands on exactly one side; kept is an order-preserving subsequence keeping every copy of an unflagged class |
| SdtmFilters.ValidateClassesToExtract | cdisc_data_providers/sdtm_data_provider.py:214-232 | `non_valid` is the flagged input classes in row order, `valid` the input minus those; the two are disjoint |
| SdtmFilters.ValidateClassesExample | tests/test_sdtm_data_provider.py:143-146 | labels 3 and 4 invalid: the split is ([1, 2], [3, 4]) |
| SdtmFilters.ValidateAccess | cdisc_data_providers/sdtm_data_provider.py:234-256 | fails iff a role is given and its query returns no row, with the message "User Role … does not exist"; otherwise returns the access split |
| SdtmFilters.FlaggedOfNullRows | cdisc_data_providers/sdtm_data_provider.py:252-254 | rows with null classes flag nothing |
| SdtmFilters.UnrestrictedAccess | cdisc_data_providers/sdtm_data_provider.py:242-256 | no role, or a role whose rows carry no class, gives `(classes, [])` |
| SdtmFilters.FilterClassesFromRels | cdisc_data_providers/sdtm_data_provider.py:195-212 | the nested loop with the `intersect` flag keeps exactly the relationships mentioning no excluded class, in order |
| SdtmFilters.CleanRelsSpec | cdisc_data_providers/sdtm_data_provider.py:198-207 | the kept relationships are an order-preserving subsequence, none mentions an excluded class in any field, and every relationship mentioning none is kept with its multiplicity |
| SdtmFilters.CleanRelsNoExclusion | cdisc_data_providers/sdtm_data_provider.py:198-212 | with no excluded class the relationships are unchanged |
| SdtmColumns.FirstWins | cdisc_data_providers/sdtm_data_provider.py:66-70 | the rename map has no identity entry, every entry comes from the metadata items, and no two keys share a target |
| SdtmColumns.BuildRenameDict | cdisc_data_providers/sdtm_data_provider.py:66-70 | the loop builds `FirstWins` of the items |
| SdtmColumns.FirstWinsValues | cdisc_data_providers/sdtm_data_provider.py:66-70 | over a dict's items, a surviving key keeps its own target |
| SdtmColumns.FirstWinsKeeps | cdisc_data_providers/sdtm_data_provider.py:66-70 | an item survives exactly when it is not an identity and no earlier surviving item took its target |
| SdtmColumns.RenameColumns | cdisc_data_providers/sdtm_data_provider.py:71 | renaming keeps the rows and the number of columns; a column with an entry takes the entry's target, a column without one keeps its label |
| SdtmColumns.RenameColumnsSimultaneous | cdisc_data_providers/sdtm_data_provider.py:71 | each column is renamed by its original label and only once (A→B, B→C turns [A, B] into [B, C]) |
| SdtmColumns.RenameKeepsDistinct | cdisc_data_providers/sdtm_data_provider.py:66-71 | distinct labels stay distinct under an injective map (as the first-wins map is) when no unrenamed label is a target |
| SdtmColumns.Effective | cdisc_data_providers/sdtm_data_provider.py:73-81 | a null or zero order becomes 1000, a declared non-zero order is used as it is, and the result is never 0 |
| SdtmColumns.ColOrder | cdisc_data_providers/sdtm_data_provider.py:83-84 | `col_order` is a permutation of the order dict's keys |
| SdtmColumns.ColOrderSpec | cdisc_data_providers/sdtm_data_provider.py:73-84 | `col_order` lists the keys ascending by (effective order, name), one per item |
| SdtmColumns.ColOrderDeterministic | cdisc_data_providers/sdtm_data_provider.py:83-84 | the result does not depend on the order in which the dict lists its items |
| SdtmColumns.ColOrderExample | tests/test_sdtm_data_provider.py:27 | {TC3: none, TC4: 2, TC5: 3} gives [TC4, TC5, TC3] |
| SdtmColumns.AddMissing | cdisc_data_providers/sdtm_data_provider.py:86-88 | the padded labels start with the original ones, contain every ordered column, come from either list, and add no label twice |
| SdtmColumns.Padded | cdisc_data_providers/sdtm_data_provider.py:86-88 | padding appends the missing columns and keeps the row count |
| SdtmColumns.PadColumns | cdisc_data_providers/sdtm_data_provider.py:86-88 | the loop of `df[col] = None` computes `Padded` |
| SdtmColumns.Project | cdisc_data_providers/sdtm_data_provider.py:89 | the projection has exactly the ordered columns and the same number of rows |
| SdtmColumns.ProjectPadded | cdisc_data_providers/sdtm_data_provider.py:86-89 | after padding and projection the columns are exactly `col_order`, extracted cells are kept, missing columns are null in every row, no row is added or lost |
| SdtmColumns.SortKeys | cdisc_data_providers/sdtm_data_provider.py:94-103 | a list is used as is; a non-empty string is split on commas with no trimming (joining the keys gives it back, no key holds a comma, a comma-free string is one key); anything else or empty gives no keys |
| SdtmColumns.SelectSortKeys | cdisc_data_providers/sdtm_data_provider.py:104-108 | a key is kept iff it is an output column, otherwise set aside; kept keys keep their relative order |
| SdtmColumns.SortRows | cdisc_data_providers/sdtm_data_provider.py:115-116 | same columns, the rows are a permutation of the input, ascending lexicographically by the key columns with nulls last |
| SdtmProvider.StudyWhere | cdisc_data_providers/sdtm_data_provider.py:19-25 | a given study sets the Study filter to its `rdfs:label`; every other entry of the where map is kept as is, an absent map counting as empty |
| SdtmProvider.PrepareExtraction | cdisc_data_providers/sdtm_data_provider.py:31-53 | the successive reassignments of `classes` and `rels` compute `PlanOf` |
| SdtmProvider.PostProcess | cdisc_data_providers/sdtm_data_provider.py:65-120 | renaming, padding, projection and sorting compute `Shape` |
| SdtmProvider.GetDataSdtm | cdisc_data_providers/sdtm_data_provider.py:18-120 | the method returns the specified outcome: nothing without metadata, the role error, or the shaped extraction of the planned request |
| SdtmProvider.PlanOf | cdisc_data_providers/sdtm_data_provider.py:31-53 | the plan fails iff a role is given and its query returns no row, with the role message; otherwise each class has one label, nothing is invalid without the validity check, and nothing is restricted without a role |
| SdtmProvider.Shape | cdisc_data_providers/sdtm_data_provider.py:65-120 | the shaped table has exactly the `col_order` columns and as many rows as the extraction |
| SdtmProvider.Expected | cdisc_data_providers/sdtm_data_provider.py:18-120 | nothing is returned iff there is no metadata; the call raises iff a role is given and its query returns no row, with the role message; a returned table has the `col_order` columns |
| SdtmProvider.PlanClasses | cdisc_data_providers/sdtm_data_provider.py:31-47 | extracted classes come from the Study-injected metadata classes and none is invalid or restricted; every other class is kept, in order; Study is kept unless excluded; the labels are those classes with the marker applied |
| SdtmProvider.PlanRels | cdisc_data_providers/sdtm_data_provider.py:49-53 | the relationships are an order-preserving subsequence of the metadata's, none mentions an excluded class, every other is kept |
| SdtmProvider.ShapeSpec | cdisc_data_providers/sdtm_data_provider.py:65-120 | the table's columns are exactly `col_order`; the row count is kept; a column the extraction lacks is null in every row; with surviving sort keys the rows are a sorted permutation, otherwise unchanged |
| CdiscStandardLoader.LinkDomain | cdisc_model_managers/cdisc_standard_loader.py:244-272 | the queries for one domain are its Sort Order query followed by the numbered Order queries over the domain's variable list (with `--SEQ` added by the rule) |
| CdiscStandardLoader.SetOrders | cdisc_model_managers/cdisc_standard_loader.py:265-272 | the `enumerate(..., start=1)` loop issues one Order query per variable, in list order, the i-th variable getting Order i |
| CdiscStandardLoader.DomainQueriesNumbered | cdisc_model_managers/cdisc_standard_loader.py:244-272 | a domain gets exactly one query more than it has variables; the first is its Sort Order query, and every Order query numbers a variable of the domain by its 1-based position |
| CdiscStandardLoader.LinkCdisc | cdisc_model_managers/cdisc_standard_loader.py:244-272 | the loop over the domain map issues the queries of each domain in turn |
| CdiscStandardLoader.VariableOrder | cdisc_model_managers/cdisc_standard_loader.py:258-263 | the list starts with the split sort order unchanged; it grows by exactly `<domain>SEQ` iff no entry mentions SEQ (upper-cased) and the domain is not DM/SV/TA/TE/TV/TS/TI; otherwise it is unchanged |
| CdiscStandardLoader.SeqVariableMentionsSeq | cdisc_model_managers/cdisc_standard_loader.py:260-263 | the appended `<domain>SEQ` mentions SEQ, so the variable list of every domain other than DM/SV/TA/TE/TV/TS/TI contains a variable mentioning SEQ |
| CdiscStandardLoader.VariableOrderStable | cdisc_model_managers/cdisc_standard_loader.py:258-263 | applying the rule to the joined result adds nothing more |
| CdiscStandardLoader.LinkQueriesOrders | cdisc_model_managers/cdisc_standard_loader.py:244-272 | every Order query of the whole run numbers a variable of one of the domains by its 1-based position in that domain's list |
| CdiscStandardLoader.LinkQueriesSortOrders | cdisc_model_managers/cdisc_standard_loader.py:244-256 | every domain of the map gets its Sort Order query |
| CdiscStandardLoader.StoredSortOrder | cdisc_model_managers/cdisc_standard_loader.py:252 | the stored Sort Order begins with the original one |
| CdiscStandardLoader.StoredSortOrderSpec | cdisc_model_managers/cdisc_standard_loader.py:252 | the SEQ variable is afterwards one of the entries, the earlier entries are unchanged, and storing again changes nothing |
| CdiscStandardLoader.Arrows | cdisc_model_managers/cdisc_standard_loader.py:466-467 | both flags or neither give ('', ''), only children ('<', ''), only parents ('', '>'); never both arrow heads |
| ComparisonUtils.Key | utils/comparison_utils.py:11 | the key is the upper-cased file name up to its first `.`, or the whole name when it has none |
| ComparisonUtils.CompareTables | utils/comparison_utils.py:8-13 | every key of the built dict is a requested (upper-cased) domain |
| ComparisonUtils.GetCompareTables | utils/comparison_utils.py:4-14 | the loop over the listing builds `CompareTables` for the upper-cased domains |
| ComparisonUtils.CompareTablesKeys | utils/comparison_utils.py:10-13 | a key is present iff it is requested and some file's stem has it |
| ComparisonUtils.CompareTablesLastWins | utils/comparison_utils.py:13 | the file under a key is the last file of the listing with that key |
| ComparisonUtils.CompareTablesCaseInsensitive | utils/comparison_utils.py:7-12 | every key is an upper-cased requested domain; a requested domain in any case is found when a file's stem matches it up to case |
| ComparisonUtils.CompareTablesValues | utils/comparison_utils.py:11-13 | every value is a listed file stored under its own upper-cased stem |
| SetupRequirements.Required | setup.py:18-29 | `required` after the loop: each line adds at most one entry |
| SetupRequirements.Links | setup.py:18-24 | `dependency_links` after the loop: every link is an input git line holding `#egg=` |
| SetupRequirements.EggName | setup.py:22 | the package name is the text after the first `#egg=` |
| SetupRequirements.ParseRequirements | setup.py:18-29 | the loop builds `required` and `dependency_links` as specified line by line |
| SetupRequirements.RequiredConcat | setup.py:18-29 | each line contributes to `required` independently and in input order |
| SetupRequirements.LinksConcat | setup.py:18-29 | each line contributes to `dependency_links` independently and in input order |
| SetupRequirements.LinksSpec | setup.py:19-24 | the links are exactly the git lines holding `#egg=`, in input order |
| SetupRequirements.RequiredPlainLines | setup.py:19-29 | a non-git line reaches `required` verbatim; a git line without `#egg=` is no link |
| SetupRequirements.RequiredOrigins | setup.py:19-29 | every requirement is a plain input line or the egg name of a git input line |
| SetupRequirements.RequirementsBounds | setup.py:18-29 | there are no more links than requirements and no more requirements than lines |

## Left out

- The Cypher and APOC queries are not modelled: the metadata query, the validity and role queries, `neo_get_mapped_classes`, the graph reshaping of the model manager and the loader's reshaping queries. Their results are inputs, or in `link_cdisc` the queries are values.
- `get_data_generic` is a parameter with no properties. `OCLASS_MARKER` is a parameter, because the library that defines it is not part of this model.
- `check_dataframes_equal` and every datacompy use are not modelled.
- File, network and environment access is not modelled: the standard and TTL loaders, the JSON reads, the CDISC API client, `os.listdir`, the asserts on the folder, and reading `requirements.txt` and calling `setuptools.setup`.
- `sorting_varible` and `neo_get_comp_tables` are not modelled; they are thin query wrappers.
- Printing, logging and the `debug` flag have no effect on results and are not modelled. This includes the warnings about excluded classes, relationships and sort keys.
- SdtmColumns.Project: on duplicate column labels, which a rename can create, it takes the first column with the label. pandas would return every such column.
- SdtmColumns.SortRows: no stability is claimed. pandas uses quicksort for a single key. Only the order of the key columns and the permutation are stated, with nulls sorting last.
- Common.Upper: upper-cases ASCII letters only. Python's `str.upper` also maps other letters.
- CdiscStandardLoader.StoredSortOrder: it models the stored Sort Order for one SEQ variable. When a domain has several such variables, the query runs once per variable, each time starting from the original sort order; the model does not capture which write lands last.
- The Cypher `apoc.text.split` is modelled as a plain split on the comma.
- The `where_map` type assertions are not modelled: a value that is not a dictionary, or a study that is not a string, would fail an assertion.
- SdtmColumns.Effective: an `Order` is an integer or null. A float `Order` would pass through `_sorter` unchanged and a string one would make the comparison with 1000 raise `TypeError`; neither is modelled.
- Other column types are not modelled. Every cell is a label or null, because extraction asks only for `rdfs:label`.
