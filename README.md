# Certification dashboard: a verified model of its computations

The dashboard loads a table of professional certifications. The sidebar filters it by name, main certification and skill. The first tab draws a radial graph: a centre node, a ring of main certifications, a ring with one node per certification, and an optional ring of skills. The second tab shows three KPIs, the hours per year and the hours per skill. This project models the computations behind those views in Dafny and proves what they deliver:

- `graph.dfy` (module `Graph`): the `CertificationGraph` class.
  - Grouping the rows by main certification.
  - Collecting the main-certification, certification and skill items.
  - Node sizes.
  - Placing each ring of nodes and its edges into the network, with id threading in `create_graph`.
  - The network is a class with a node list and an edge list that the methods append to.
- `analysis.dfy` (module `Analysis`):
  - `extract_year`, as `strptime` with the format `%d/%m/%Y`.
  - `prepare_data`, which writes a `year` column into the frame it is given.
  - The KPI arithmetic of `display_kpis`.
  - `calculate_hours_per_year`.
  - `calculate_hours_per_skill`, with its sort by hours.
- `utils.dfy` (module `Utils`): the group-by-year sum and the skill-hours dictionary loop.
- `dashboard.dfy` (module `Dashboard`):
  - the decoding of the skills column in `load_data`
  - `get_unique_values`
  - the three conditional filters of `main`, as a method that reassigns the filtered table step by step
- `common.dfy` (modules `Rows`, `Seqs`, `Order`):
  - the row record
  - pandas-style sums that skip missing values
  - boolean-mask filtering
  - first-occurrence de-duplication (`unique`)
  - Python's string order and a sort

## How the source's values are represented

- Missing values (pandas NaN) are `None`.
- Workloads are `real`.
- A skills cell is one of:
  - `Text(list)`: a string holding a list literal, given already decoded
  - `Parsed(list)`: a cell that already holds a list
  - `Absent`: anything else
- Node positions are abstract `Pos(radius, index, count)`. The Euclidean distance used by the nearest-node rule is a function parameter `dist`.

## Behaviour the code has and the model keeps

1. **No skills after loading.** `load_data` turns every skills cell into a list. The graph and both skill-hours loops only read cells that are strings, so over a loaded table they see no skills at all. The skill ring is empty and the skill-hours dictionary is empty (`Dashboard.LoadedTableHidesSkills`).
2. **NaN propagates in skill hours.** The skill-hours loop adds with plain Python `+`, so one missing workload on a row listing a skill makes that skill's total NaN (`None`), and nothing else does (`Utils.HoursPerSkillNaN`). pandas sums skip missing values instead.
3. **Nearest node for a skill.** A skill's edge goes to the nearest node among ids `1 .. start_id - 1`. These are all main-certification and certification nodes, not only the certification nodes. Ties go to the lowest id.
4. **Parent edges use truthiness.** A certification's edge comes from its main-certification node only when:
   - the parent text is non-empty, and
   - the id dictionary is non-empty, and
   - the parent is in the dictionary.

   Otherwise the edge comes from the centre.
5. **Missing main certification in the filter.** A missing value becomes the text `"nan"` before `isin`.
6. **Skills cells hold lists.** A decoded cell is a list, so a skill can be listed twice and counts twice in the skill hours.
7. **KPI average on an empty frame.** pandas yields NaN here, not an exception. The model returns `None`.

## Model

| member | source | states |
|---|---|---|
| `Graph.GetNodeSize` | src/graph.py:63-67 | The size is always within [20, 50]. A missing (NaN) workload gives 20. A workload between 40 and 100 hours gives exactly half of it. |
| `Graph.NodeSizeMonotone` | src/graph.py:67 | More hours never give a smaller node. |
| `Graph.ItemSize` | src/graph.py:86 | Every item's size is within [15, 50]. It is exactly 15 for the items without a workload (skills) and for no other item. |
| `Graph.Network.AddNode` | src/graph.py:88 | Appends one node to the network and leaves the edges unchanged. |
| `Graph.Network.AddEdge` | src/graph.py:91 | Appends one edge to the network and leaves the nodes unchanged. |
| `Graph.CertificationGraph.CreateNetwork` | src/graph.py:27-30 | A fresh network holding only the centre node (id 0, size 50) and no edges. |
| `Graph.CertificationGraph.constructor` | src/graph.py:21-25 | Keeps the table and holds a fresh centre-only network. The groups and item lists are those of the table (`Valid`). |
| `Graph.CertificationGraph.GroupCertifications` | src/graph.py:32-40 | Returns the grouping of the rows by main certification, and the rows without one, in input order. |
| `Graph.GroupKeys` | src/graph.py:35-37 | The group keys are the distinct present main certifications, in order of first appearance. |
| `Graph.GroupMembers` | src/graph.py:36-37 | A key exists exactly for main certifications some row has. Its list is exactly the rows with that main certification, in input order. |
| `Graph.GroupingPartitions` | src/graph.py:32-40 | The grouped rows plus the non-specialised rows are a permutation of the input: no row is lost or duplicated. |
| `Graph.GroupingKeepsCount` | src/graph.py:32-40 | The grouped and non-specialised rows together number exactly the input rows. |
| `Graph.CertificationGraph.CollectNodesAndLeaves` | src/graph.py:42-61 | The method's outputs are the main items, the certification items and a duplicate-free skill list covering the text skills of all rows. Each of these is described by its own row below. |
| `Graph.CertificationGraph.CollectGroup` | src/graph.py:47-54 | One pass of the group loop: the main items, certification items and skill set are extended from the first `i` groups to the first `i + 1`. |
| `Graph.CertificationGraph.CollectRows` | src/graph.py:51-59 | Appends one `(name, workload, parent)` triple per row, in order, and adds each row's text skills to the set. |
| `Graph.CertificationGraph.SkillList` | src/graph.py:61 | A list of `(skill, None)` pairs naming every skill of the set exactly once. |
| `Graph.MainItemsFromTable` | src/graph.py:47-49 | The main items are the distinct main certifications in first-appearance order. Each carries the sum of the present workloads of its rows (missing ones skipped). |
| `Graph.SubItemsFromTable` | src/graph.py:51-57 | There is exactly one certification item per row. Grouped rows come first, group by group; the non-specialised rows follow. Each item carries the row's name, its workload and its parent (the key or `None`). |
| `Graph.SkillSetFromTable` | src/graph.py:53-59 | The skills collected through the groups and the non-specialised rows are exactly the text skills of the whole table. |
| `Graph.TextSkillSetMember` | src/graph.py:53-54 | A skill is collected exactly when some row's skills cell is text listing it. Other cells contribute nothing. |
| `Graph.SkillListSize` | src/graph.py:61 | The skill list has one entry per distinct skill. |
| `Graph.Nearest` | src/graph.py:99-100 | The nearest node is one of the ids `1 .. start_id - 1`. |
| `Graph.NearestIsFirstMin` | src/graph.py:99-100 | The chosen node is at least as close as every candidate, and strictly closer than every lower id, which is Python's `min` with a key. |
| `Graph.NearestPrefix` | src/graph.py:99-100 | Nodes added after the candidates do not change the choice. |
| `Graph.CertificationGraph.AddNodesInCircle` | src/graph.py:69-103 | The network gains the ring's nodes (ids `start_id + i`, sized by workload) and one edge per node by the ring's rule. It returns `start_id + len(items)`, and the label-to-id dictionary on the main ring (empty otherwise). |
| `Graph.CertificationGraph.PlaceItem` | src/graph.py:74-101 | One loop pass: node `i` and its edge are appended, and the id dictionary is extended on the main ring. |
| `Graph.CertificationGraph.LinkNode` | src/graph.py:90-101 | The edge rule has three cases: centre to node on the main ring; parent's id or centre to node on the certification ring; nearest earlier node to node on the skill ring. |
| `Graph.CertificationGraph.CreateGraph` | src/graph.py:105-112 | The network is rebuilt from scratch. Its nodes and edges are exactly the three rings after the centre, with ids threaded from 1 and the skill ring drawn only when asked. |
| `Graph.GraphNodeIds` | src/graph.py:79 | Node `k` has id `k`. The centre is 0. The main ring follows from 1, then the certification ring, then the skills; each node has its item's label. |
| `Graph.GraphNodeSizes` | src/graph.py:86 | Every size is within [15, 50]. Certification-level nodes are at least 20 and skill nodes are 15. |
| `Graph.ValidItemKinds` | src/graph.py:47-61 | The items of a built graph meet the conditions of `GraphNodeSizes`: main items carry a known total, certification items a workload (known or NaN), and skill items none. |
| `Graph.GraphEdgeShape` | src/graph.py:90-101 | Edge `k` ends at node `k + 1` and starts at an earlier node. The main-certification edges start at the centre. |
| `Graph.RingIdsOf` | src/graph.py:92 | The main ring's dictionary maps each main-certification label to its node id. |
| `Graph.SubEdges` | src/graph.py:93-97 | A certification whose parent is a non-empty main-certification label hangs from that main node. One without a parent, or with an empty one, hangs from the centre. |
| `Graph.SkillEdges` | src/graph.py:98-101 | Every skill node hangs from a node among ids `1 .. start_id - 1` (main-certification and certification nodes) that is at least as close as all of them and strictly closer than every lower id. |
| `Graph.SkillsNeedRows` | src/graph.py:99 | Skills exist only when certification nodes do, so the range the nearest node is taken over is never empty. |
| `Graph.GraphOfTable` | src/graph.py:105-112 | The graph has 1 + (distinct main certifications) + (rows) + (skills, when shown) nodes, and one edge fewer than nodes. |
| `Utils.HoursPerYear` | src/utils.py:4-5 | One row per distinct year, ascending, each holding the workload total of that year's rows. |
| `Utils.HoursPerYearKeys` | src/utils.py:5 | A year has a row exactly when some row of the frame has that year. |
| `Utils.HoursPerYearConserves` | src/utils.py:5 | The table's hours add up to the workload total of the rows that have a year. |
| `Utils.AccumulateNaN` | src/utils.py:14 | An entry built by `+=` from its workloads is NaN exactly when one of those workloads is. |
| `Utils.WorkloadsForMissing` | src/utils.py:10-14 | A skill collects a missing workload exactly when some text row listing it has none. |
| `Utils.HoursPerSkillNaN` | src/utils.py:7-17 | A skill's total is NaN exactly when some row listing it in a text cell has a missing workload. |
| `Utils.AddRowSkills` | src/utils.py:12-16 | The inner loop leaves the dictionary that one more row's skills produce. |
| `Utils.CalculateHoursPerSkill` | src/utils.py:7-17 | The loop leaves the dictionary that the sequence of (skill, workload) visits produces. |
| `Utils.DictAfterEntry` | src/utils.py:13-16 | A skill is a key exactly when visited. Its value is its first workload with each later one added. |
| `Utils.DictAfterKeys` | src/utils.py:13-16 | The keys are the visited skills in first-visit order, without duplicates. |
| `Utils.HoursPerSkillKeys` | src/utils.py:7-17 | The keys are exactly the skills listed in text cells. The dictionary is empty exactly when no text cell lists any. |
| `Utils.HoursPerSkillIgnoresNonText` | src/utils.py:10 | Rows whose skills cell is not text leave the dictionary unchanged. |
| `Utils.HoursPerSkillValues` | src/utils.py:13-16 | When every row with a text skills cell has a known workload (other rows never reach the dictionary), a skill's hours are the sum over rows of (times the skill is listed) × (workload). |
| `Utils.HoursPerSkillTotal` | src/utils.py:7-17 | When every row with a text skills cell has a known workload, the dictionary's values sum to the sum over rows of (length of the list) × (workload). |
| `Rows.TotalHoursSkipsMissing` | src/graph.py:48 | `TotalHours`, the pandas-style sum, skips missing workloads: a row without one changes no total, wherever it stands. This is the `notna` guard of the main-certification totals and the default of `sum()` at src/analysis.py:43. |
| `Rows.TotalHoursAppend` | src/analysis.py:43 | `TotalHours` is additive: the total of two tables joined is the sum of their totals. |
| `Analysis.ExtractYear` | src/analysis.py:16-19 | A year is returned only for a parsing date and lies in 1..9999. The round trip with formatting is in `StrptimeOfFormat` and `ExtractYearOfValidDate`. Rejection of trailing text is in `ExtractYearRejectsTrailing`. |
| `Analysis.DayField` | src/analysis.py:17 | An accepted `%d` field is a day within 1..31. |
| `Analysis.MonthField` | src/analysis.py:17 | An accepted `%m` field is a month within 1..12. |
| `Analysis.YearField` | src/analysis.py:17 | An accepted `%Y` field is four digits, read as 0..9999. |
| `Analysis.DaysInMonth` | src/analysis.py:17 | Every month has 28 to 31 days. February has 29 exactly in Gregorian leap years. Every other month has at least 30. |
| `Analysis.Strptime` | src/analysis.py:17 | Whatever parses is an existing calendar date. |
| `Analysis.StrptimeOfFormat` | src/analysis.py:16-19 | A zero-padded `dd/mm/yyyy` string parses back to its own date exactly when that date exists. Otherwise the parse fails. |
| `Analysis.ExtractYearOfValidDate` | src/analysis.py:16-19 | `extract_year` of a formatted valid date is its year. |
| `Analysis.StrptimeUnpadded` | src/analysis.py:17 | The forms `d/m/yyyy` and ` d/m/yyyy` parse as well. |
| `Analysis.ExtractYearIsYearField` | src/analysis.py:17 | A parsing string ends with `/` and four digits, and these give its year (1..9999). |
| `Analysis.ExtractYearRejectsTrailing` | src/analysis.py:16-19 | Any text after a parsing date makes the parse fail. |
| `Analysis.PrepareData` | src/analysis.py:21-32 | Writes the `year` column into the frame and returns the rows that have a year, in order. |
| `Analysis.PreparedRows` | src/analysis.py:31-32 | The prepared rows are exactly the rows whose date parses, in order, each with the year of its date. |
| `Analysis.PreparedYearMembers` | src/analysis.py:31-32 | A year occurs among the prepared rows exactly when some date parses to it. |
| `Analysis.MinOf` | src/analysis.py:47 | The minimum is one of the values and no value is below it. |
| `Analysis.MaxOf` | src/analysis.py:47 | The maximum is one of the values and no value is above it. |
| `Analysis.DisplayKpis` | src/analysis.py:34-49 | Prepares the frame (writing its year column) and returns the KPIs of the prepared rows. |
| `Analysis.KpiCountAndTotal` | src/analysis.py:40-43 | The count is the number of rows whose date parses. The total is their summed workload, missing workloads skipped. |
| `Analysis.KpiAverage` | src/analysis.py:47-48 | There is an average exactly when some row is kept. The span from the earliest to the latest year is then at least 1 and covers every row's year, and the average is the total divided by it. |
| `Analysis.CalculateHoursPerYear` | src/analysis.py:51-53 | Prepares the frame, then returns its hours per year. |
| `Analysis.HoursPerYearMatchesKpis` | src/analysis.py:51-53 | The hours per year add up to the KPI total. The years are ascending, and a year is listed exactly when some date parses to it. |
| `Analysis.ItemsAreEntries` | src/analysis.py:65 | An entry is in `list(items())` exactly when its skill is a key and its hours are that key's value. With distinct keys, no skill appears twice. |
| `Analysis.HoursFirstIsTotalPreorder` | src/analysis.py:65 | "More hours first, NaN last" is a total preorder, so a descending sort by it is well defined. |
| `Analysis.CalculateHoursPerSkill` | src/analysis.py:55-65 | The table is a permutation of the dictionary's entries, sorted by hours descending with NaN last. |
| `Analysis.SkillTableContents` | src/analysis.py:55-65 | Each skill listed in a text cell appears exactly once, with its dictionary total, and nothing else appears. |
| `Order.StrLeLexicographic` | src/main.py:18 | `StrLe`, Python's `<=` on `str`, holds exactly when one of two things is true: the first string is a prefix of the second, or at the first differing position the first string has the smaller code point. |
| `Order.StrLeIsTotalPreorder` | src/main.py:21 | `StrLe` is total and transitive, so `sorted` over strings is well defined. |
| `Order.StrLeAntisymmetric` | src/main.py:21 | Two strings each `<=` the other are equal, so a sorted list of distinct strings is strictly increasing. |
| `Order.SortBy` | src/main.py:21 | The result is a permutation of the input, sorted by the given order. |
| `Dashboard.DecodeSkills` | src/main.py:13 | Every decoded cell holds a list. |
| `Dashboard.LoadData` | src/main.py:11-14 | Every row is kept with its other columns unchanged. Its skills cell becomes the list of a text cell, or `[]` for any other cell. |
| `Dashboard.LoadedTableHidesSkills` | src/main.py:13 | After loading, no cell is text: the graph collects no skills and the skill-hours dictionary is empty. |
| `Dashboard.GetUniqueValues` | src/main.py:16-21 | The option list is strictly increasing in Python's string order, so it has no duplicates. |
| `Dashboard.UniqueValuesMembers` | src/main.py:16-21 | A value is offered exactly when some row has it as its name, as its present main certification, or in its skill list. Missing values are never offered. |
| `Dashboard.UniqueValuesCanonical` | src/main.py:18-21 | Any strictly increasing list of exactly the column's values equals the option list. |
| `Dashboard.LoadedSkillOptions` | src/main.py:13-18 | Over a loaded table, the skill options are exactly the skills listed in the file's text cells. |
| `Dashboard.ApplyFilters` | src/main.py:70-76 | Applying the non-empty filters in turn leaves exactly the rows passing every active filter, in order. |
| `Dashboard.FilteredMembers` | src/main.py:71-76 | A row survives exactly when all three hold: its name is selected (if any name is), its stringified main certification is selected (if any is), and its list shares a skill with the selection (if any skill is selected). |
| `Dashboard.FilteredIsSubsequence` | src/main.py:70-76 | The filtered table is the input with rows deleted, order kept. |
| `Dashboard.EmptySelectionKeepsTable` | src/main.py:70-76 | With nothing selected the table is unchanged. |
| `Dashboard.FilterOrderIrrelevant` | src/main.py:71-76 | The filters are conjunctive: applying them in the opposite order gives the same table. |
| `Dashboard.FilteredIdempotent` | src/main.py:70-76 | Filtering the result again by the same selection changes nothing. |
| `Dashboard.MissingMainCertFiltered` | src/main.py:20 | A row without a main certification can survive a main-certification selection drawn from the options only when some row's main certification is the text `"nan"`. |

## Left out

- Rendering: the pyvis library, node colours in the HTML, `get_html`, and the injected JavaScript click handler with its message passing. These are a foreign library and browser code. The network is modelled as its node and edge lists.
- Geometry: the `cos`/`sin` coordinates and `math.hypot` distances. They are floating point. Positions are abstract and the distance is a parameter, so the nearest-node rule is proved for any distance function.
- `eval` of the skills text. It is dynamic code evaluation; a text cell carries its decoded list.
- The user interface: Streamlit widgets, tabs, session state and `st.cache_data`, the CSV read, `display_certification_details`, `display_analysis_graphs` and the plotly charts. These are UI and I/O. The selections are the parameters of `Dashboard.ApplyFilters`.
- Number formatting of the metrics (`:.0f`, `:.1f`). This is display only.
- Floating-point rounding: workloads and averages are exact reals.
- The `year` column's float dtype. It does not change any value modelled.
- Python's `\d`, which also matches non-ASCII decimal digits. Only ASCII digits are modelled.
- A date cell that is not a string (a missing date): `strptime` raises `TypeError`, which `extract_year` does not catch. Dates are always strings here.
- `Analysis.KpiAverage`: the empty-frame average is `None`, where pandas gives NaN.
- `Analysis.CalculateHoursPerSkill`: the order among rows with equal hours is not fixed. pandas' default sort is not stable; any order sorted by hours is allowed.
- `Graph.CertificationGraph.SkillList`: the order of the skill list is not fixed, because Python's set iteration order is unspecified. Every property is stated independently of it.
- `Dashboard.GetUniqueValues`: requires list cells for the skills column. On a text cell Python would iterate characters; on a missing cell it would raise. `str()` of non-string names or main certifications is not modelled; both columns hold strings.
- `Dashboard.ApplyFilters`: requires a loaded table, whose skills cells are lists. On a text cell, `in` would be a substring test.
- `Dashboard.ApplyFilters`: one pandas case is not captured. Suppose the name or main-certification step has already emptied the table and a skill is selected. Then the skills mask is an empty object-dtype Series. pandas reads that as a list of columns, not as a boolean mask, so the result is a frame without columns. `prepare_data` then fails with `KeyError` on the date column. The model returns the empty table there; `DisplayKpis` of it gives a count of 0, a total of 0 and no average.
