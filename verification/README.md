# OrgChart view logic, modelled in Dafny

This project models the logic of the `OrgChart` module in `visualization.js`. That module draws an organisation tree with d3, and its logic falls into four parts:

- **View state** (`viewstate.dfy`, over `hierarchy.dfy`). Each node of the d3 hierarchy keeps its child list in one of two fields:
  - in `children` while it is expanded;
  - in `_children` while it is collapsed.

  The chart is an arena of nodes numbered from the root (`Hierarchy.Shape`). The mutable fields of every node live in class `ViewState.Tree`: `children`, `_children` (here `hidden`), the id, the position `x`/`y` and the previous position `x0`/`y0`, plus the module-wide id counter `i`. The class models:
  - `click`, `collapse`, the inner `expand` of `expandAll`, and `collapseAll`;
  - the initial collapse in `createVisualization`;
  - the repository's own bookkeeping in `update`: the spacing rescale, the ids `d.id || (d.id = ++i)` (which are also the link keys `d.target.id`), the anchors where entering and exiting elements start and end, and the `x0`/`y0` refresh.

  Collapse and expand are proved against the tree. A node is visible when every node above it is expanded. The proofs then show that:
  - `collapseAll` and the initial collapse leave the root expanded and exactly the root and its children visible;
  - `expandAll` makes every node visible.

  In `createVisualization` the root's `x0 = height / 2` is overwritten by `d.x0 = d.x` before any layout has run, so every previous position starts undefined. The model's constructor ends in that state, so the first `update` enters nodes from (0, 0).
- **Highlight** (`highlight.dfy`, `search.dfy`). There are three module variables:
  - `highlightedDepartment`;
  - `highlightedNodes`, a set of emails or null;
  - `licenseHighlightActive`.

  Four operations set them: department highlight, license toggle, name/title search and clear. Each operation is a function on a `State` value, with its meaning in its contract. Class `Highlighter` holds the three variables and its methods follow those functions. The search is modelled in full:
  - `trim()` and `toLowerCase()`;
  - a hand-written scanner that does what `raw.match(/"[^"]+"|\S+/g)` does;
  - the quote strip `replace(/^"|"$/g, '')`;
  - the substring test `includes`.
- **Presentation** (`presentation.dfy`): the node, link and title opacities, the stroke and fill colours, the node label, and the missing-coordinate guard of `diagonal`.
- **CSV export** (`export.dfy`):
  - which people are exported, the fixed header and one row per person;
  - the "AI Usage" column with `Math.round(engagement * 3)`;
  - the quoting of each field, with embedded quotes doubled.

  A reader for that format is defined beside the writer. The export is proved to read back as the header followed by the rows.

`records.dfy` holds the person record of `orgData`. `optional.dfy` holds `Option`.

## Model

| member | source | states |
|---|---|---|
| ViewState.Toggle | visualization.js:324-330 | the swap `click` makes: at most one of the two fields ends non-null; an expanded node's list moves to `_children`, otherwise `_children` moves back to `children` (further properties in `ViewState.ToggleProperties`) |
| ViewState.ToggleProperties | visualization.js:323-331 | a click keeps a node's two child fields well formed, flips an inner node between expanded and collapsed, leaves a leaf unchanged, leaves one field null, and two clicks restore both fields |
| ViewState.Tree.Click | visualization.js:323-331 | only node d's `children`/`_children` change, to the toggled pair; the tree stays well formed |
| ViewState.Tree.Collapse | visualization.js:335-341 | every node shown from d (d included) loses `children` and gets it in `_children`; already-collapsed nodes and everything hidden below them keep their fields; slots stay well formed |
| ViewState.Tree.CollapseEach | visualization.js:336-339 | `forEach(collapse)` over p's children collapses exactly the nodes shown under some child of p, and leaves p and all other nodes as they were |
| ViewState.Tree.Expand | visualization.js:347-354 | d and every descendant of d, shown or hidden, ends with its whole child list in `children` and no `_children`; all other nodes are unchanged |
| ViewState.Tree.ExpandEach | visualization.js:352-353 | `forEach(expand)` over p's children expands exactly the nodes strictly below p |
| ViewState.Tree.ExpandAll | visualization.js:344-358 | every node holds its child list in `children`, has no `_children`, and is visible |
| ViewState.Tree.CollapseAll | visualization.js:362-369 | exactly the visible nodes other than the root are collapsed; when the root was expanded it stays expanded and exactly the root and its children are visible; otherwise nothing changes |
| ViewState.OnlyRootExpanded | visualization.js:129-132 | with the root the only expanded node, a node is visible exactly when it is the root or a child of the root |
| ViewState.CollapsedChildrenOfRoot | visualization.js:129-132 | collapsing what is shown below each child of a freshly built hierarchy leaves the root expanded, every other inner node holding its children in `_children`, and exactly the root and its children visible |
| ViewState.Tree.constructor | visualization.js:119-132 | after the hierarchy is built fully expanded and each child of the root is collapsed, only the root is expanded, every other inner node holds its children in `_children`, exactly the root and its children are visible, and no node has an id or a position (the root's `x0 = height / 2` is overwritten with an undefined `d.x`) |
| ViewState.OrZero | visualization.js:202 | `v \|\| 0` on an optional coordinate: the value when defined, 0 when undefined |
| ViewState.Tree.Update | visualization.js:188-300 | each visible node is placed at (depth × horizontalSpacing, layout x × verticalSpacing), keeps its id or gets one above the old counter, ids of visible nodes (and so link keys) are distinct, and `x0`/`y0` equal the new position; hidden nodes are untouched; the enter anchor is the source's old `y0`/`x0` read as 0 when undefined, the exit anchor its new `y`/`x` |
| ViewState.Tree.Place | visualization.js:190-193 | every node of the layout list gets `y = depth × horizontalSpacing` and `x = layout x × verticalSpacing`; the others keep their positions |
| ViewState.Tree.AssignIds | visualization.js:196-197 | every node of the list has a nonzero id; a node that had one keeps it; a new one exceeds the old counter; assigned ids stay distinct and at most the counter |
| ViewState.Tree.RememberPositions | visualization.js:297-300 | every node of the list has `x0 = x` and `y0 = y`; the others keep theirs |
| Search.Trim | visualization.js:528 | `trim()`: never longer than the input, and empty or with non-white-space ends (fully characterised by `Search.TrimStart`, `Search.TrimEnd` and `Search.TrimIsSlice`) |
| Search.Lower | visualization.js:528 | `toLowerCase()` character by character: same length, each character lowered (properties in `Search.LowerProperties`) |
| Search.TrimStart | visualization.js:528 | the result is the suffix of the input that starts at its first non-white-space character, and everything dropped is white space |
| Search.TrimEnd | visualization.js:528 | the result is the prefix that ends at the last non-white-space character, and everything dropped is white space |
| Search.TrimIsSlice | visualization.js:528 | `trim()` gives a slice of the input whose ends are not white space, empty exactly when the input is all white space |
| Search.TrimIdempotent | visualization.js:528 | trimming twice equals trimming once |
| Search.LowerProperties | visualization.js:528 | lowering leaves no capital, keeps every other character, is idempotent and keeps white space where it was |
| Search.TokenEnd | visualization.js:535 | the match at a non-space position is never empty; the first alternative wins, so when a prefix is a quoted phrase `"[^"]+"` that phrase is the match; otherwise the match is the longest run of non-space characters, ending at white space or at the end |
| Search.Tokens | visualization.js:535 | every match is a phrase or a non-space run, and there are no matches exactly when the input is all white space |
| Search.TokensUnwords | visualization.js:535 | scanning words and quoted phrases separated by single spaces gives back exactly those words and phrases |
| Search.TokensSpaced | visualization.js:535 | scanning words and quoted phrases with any white space around and between them (any number of spaces, tabs or line breaks) gives back exactly those words and phrases: the white space is skipped and never yields a match |
| Search.TokensUnclosed | visualization.js:535 | a quote with no closing quote is matched by `\S+` as part of an ordinary run, so `"jane doe` yields `"jane` and then the matches of the rest |
| Search.StripQuotes | visualization.js:542 | `replace(/^"\|"$/g, '')`: removes at most two characters, and text that neither starts nor ends with a quote is kept (phrases and `""` in `Search.StripQuotesProperties`) |
| Search.Terms | visualization.js:528-542 | the terms are the scanner's matches on the trimmed, lowered input, each with its quotes stripped, one term per match in order (typed lines in `Search.TermsOfTyped`) |
| Search.StripQuotesProperties | visualization.js:542 | a phrase loses exactly its two quotes and stays non-empty, text without quotes is unchanged, and `""` becomes the empty string |
| Search.TermsOfTyped | visualization.js:528-542 | a typed line of words and phrases is searched as exactly those terms, lowered, each with its quotes stripped |
| Search.Includes | visualization.js:543 | `includes`: true when the needle is a prefix, false when the needle is longer than the haystack (exact meaning in `Search.IncludesOccurs`) |
| Search.IncludesOccurs | visualization.js:543 | `includes` holds exactly when the needle occurs at some position of the haystack; the empty string is included in every string |
| Search.Matches | visualization.js:539-544 | the filter predicate: some term occurs in the lowered name or title; no term means no match (see `Search.MatchesByName`, `Search.EmptyTermMatchesAll`) |
| Search.SearchEmails | visualization.js:538-546 | an email is in the result exactly when some record with that email matches a term in its lowered name or title |
| Search.EmptyTermMatchesAll | visualization.js:539-545 | an empty term, as left by searching `""`, matches every record |
| Search.MatchesByName | visualization.js:539-545 | a record whose lowered name contains a term is found |
| Highlight.NonEmpty | visualization.js:471 | an empty set becomes null and any other set is kept |
| Highlight.DepartmentEmails | visualization.js:468-470 | exactly the emails of the records in the department |
| Highlight.LicensedEmails | visualization.js:508 | exactly the emails of the licensed records |
| Highlight.AfterDepartment | visualization.js:462-476 | the same department again clears all state; otherwise the department is set, the license highlight is off, and the set holds exactly that department's emails (null when it has none) |
| Highlight.AfterLicenseToggle | visualization.js:503-510 | when active it clears all state; otherwise the department is cleared, the toggle is on even with no licensed people, and the set holds exactly the licensed emails (null when there are none) |
| Highlight.AfterSearch | visualization.js:525-548 | no search box changes nothing; input that is blank after trimming clears all state; otherwise the department is cleared, the license highlight is off, and the set holds exactly the emails of matching records (null when none match) |
| Highlight.OperationsKeepConsistent | visualization.js:462-548 | from a consistent state every operation leads to one where the set is never empty-but-present and the department and license highlights are never both on |
| Highlight.ToggleOff | visualization.js:464-465 | choosing a new department twice, or switching the license highlight on and off, leaves no highlight |
| Highlight.ResultsForgetThePast | visualization.js:466-476 | a new department, license or search highlight does not depend on what was highlighted before |
| Highlight.Highlighter.constructor | visualization.js:14-16 | the variables start null, null, false |
| Highlight.Highlighter.Clear | visualization.js:571-574 | all three variables are reset |
| Highlight.Highlighter.HighlightDepartment | visualization.js:462-476 | the variables become `AfterDepartment` of their old values, and stay consistent |
| Highlight.Highlighter.ToggleLicenseHighlight | visualization.js:503-510 | the variables become `AfterLicenseToggle` of their old values, and stay consistent |
| Highlight.Highlighter.SearchByNameTitle | visualization.js:525-548 | the variables become `AfterSearch` of their old values, and stay consistent |
| Presentation.NodeOpacity | visualization.js:604-609 | opacity is 1 or 0.2, and 1 exactly when there is no highlight or the email is highlighted |
| Presentation.LinkOpacity | visualization.js:612-619 | 1 with no highlight; otherwise 0.6 exactly when either end's email is highlighted, else 0.1 |
| Presentation.TitleOpacity | visualization.js:252 | the title line is always fainter than its node: 0.7 exactly when the node is drawn in full (no highlight, or a highlighted email), 0.14 otherwise |
| Presentation.LinkFollowsEnds | visualization.js:604-619 | under a highlight a link is strong exactly when one of its end nodes is drawn at full opacity, and no link is drawn at full opacity |
| Presentation.ClearedDrawsAllInFull | visualization.js:604-619 | after a clear every node and link has opacity 1 |
| Presentation.DepartmentOpacity | visualization.js:604-609 | after choosing a department, a person is drawn in full exactly when the department is empty or someone of it shares their email |
| Presentation.Stroke | visualization.js:645-651 | green exactly for licensed people, red otherwise |
| Presentation.Fill | visualization.js:632-642 | license mode is green exactly for licensed people and grey otherwise; level mode uses the colour of the node's depth, and the level-5 colour for every depth of 5 or more; department mode uses the scale's colour of the person's department, or of "Unknown" when it is missing or empty |
| Presentation.LicenseFillAgreesWithStroke | visualization.js:632-651 | in license mode the fill equals the stroke exactly for licensed people |
| Presentation.LevelsClampAtFive | visualization.js:638 | all depths of 5 or more share the level-5 colour, and shallower depths use their own level |
| Presentation.MissingDepartmentLooksUnknown | visualization.js:640 | a missing or empty department is coloured like the department named "Unknown" |
| Presentation.Label | visualization.js:622-629 | the label starts with the name (or "Unknown" for a missing or empty name), is never empty, and carries " " plus the stars exactly when stars are on and the engagement is defined and positive |
| Presentation.Diagonal | visualization.js:304-320 | the path is empty exactly when an end or one of its coordinates is undefined; otherwise it runs from the source to the target with both control points half way across |
| Presentation.AnchorPathIsPoint | visualization.js:274-277 | an entering or exiting link, drawn from one defined point to itself, is never empty and collapses to that point |
| Export.Round | visualization.js:412 | `Math.round` lies within half of its argument, halves going up |
| Export.NatTextValue | visualization.js:413 | the decimal text of a count reads back as the count |
| Export.IntText | visualization.js:413 | `${daily}` for an integer: the decimal text of a non-negative number, a minus sign before that of its negation otherwise (read back by `Export.NatTextValue`) |
| Export.AiUsage | visualization.js:411-413 | empty exactly when the engagement is undefined; otherwise the rating's label and " (~N/day)", with N the rounded engagement × 3 |
| Export.Row | visualization.js:414-422 | seven columns in header order: name, title, department, location and email as recorded, each empty when missing; License "Yes" exactly for licensed people and "No" otherwise; AI Usage as `Export.AiUsage` gives it, empty exactly when the engagement is undefined |
| Export.Rows | visualization.js:410-423 | one row per person, in order |
| Export.Filter | visualization.js:406 | keeps exactly the people whose email is highlighted |
| Export.FilterKeepsOrder | visualization.js:406 | the filter keeps the records' order |
| Export.Selected | visualization.js:404-407 | everybody, in order, without a non-empty highlight; otherwise exactly the highlighted people, as the order-keeping `Export.Filter` of the records (with `Export.FilterKeepsOrder`), so input order and repeats are kept |
| Export.ExportText | visualization.js:400-427 | no file when there is no data; otherwise a file |
| Export.Double | visualization.js:426 | `replace(/"/g, '""')`: never shorter (quote-free text kept by `Export.DoubleKeepsPlainText`; round trip in `Export.ReadQuotedDouble`) |
| Export.DoubleKeepsPlainText | visualization.js:426 | text without quotes is written unchanged by the quote doubling |
| Export.Quote | visualization.js:426 | the field wrapped in quotes around its doubled text |
| Export.Line | visualization.js:426 | the quoted fields joined by commas: empty exactly for no fields (round trip in `Export.ReadFieldsLine`) |
| Export.Csv | visualization.js:425-427 | the lines joined by newlines: empty exactly when there are no rows, given non-empty rows (round trip in `Export.ReadRowsCsv`) |
| Export.ReadQuotedDouble | visualization.js:426 | a field quoted with its quotes doubled reads back as the value |
| Export.ReadFieldsLine | visualization.js:426 | a line of quoted fields joined by commas reads back as the fields |
| Export.ReadRowsCsv | visualization.js:425-427 | lines joined by newlines read back as the rows |
| Export.ExportReadsBack | visualization.js:400-427 | the file reads back as the header followed by one row per exported person, in order, with "Yes" under License exactly for licensed people |

## Left out

- Page side effects are not modelled: the search box value, button visibility, the `active` class on department rows, tooltips, the legend and the stats panel. The search text is a parameter of the search and the colour selector a parameter of `Presentation.Fill`.
- d3 itself is not modelled: `d3.hierarchy`, the `d3.tree` layout, the data join, transitions and zoom. `Hierarchy.Shape` is the hierarchy `d3.hierarchy` builds. The layout's node list and spread coordinates are inputs of `ViewState.Tree.Update`. Which elements enter or exit is decided by d3, so the model states only the anchors the repository chooses for them.
- `resetView` and the layout's geometry are not modelled.
- All arithmetic is on exact reals, not IEEE doubles: positions, the opacity product `getNodeOpacity(d) * 0.7` (0.14 here, 0.13999999999999999 in doubles) and `aiEngagement * 3`. `Math.round` and `String` therefore act on the exact value: for the double nearest 1/6, JavaScript computes 0.5 and writes `(~1/day)`, while `Export.AiUsage` rounds the exact product below one half and writes `(~0/day)`. `Export.IntText` never switches to the exponent notation `String` uses from 1e21 on.
- The no-chart guards are not modelled: `createVisualization` returning when there is no hierarchy data, `update` returning without a root or layout, and `expandAll`/`collapseAll` returning without a root. A `ViewState.Tree` always has a root and its layout is an input, so those early exits have no counterpart.
- `ViewState.Tree.Click`: the `update(d)` that `click` ends with is a separate call of `ViewState.Tree.Update` with source d. Likewise, `expandAll`, `collapseAll` and `createVisualization` each end with `update(root)`.
- `GraphAPI.getStarRating` is outside this module. It is the parameter `rating` and is taken to return an object, never null.
- The colour scales (`d3.scaleOrdinal` and `d3.scaleSequential`) are the parameters `levelColour` and `departmentColour`.
- `Presentation.Diagonal`: the call form with a link object (`source.source`, `source.target`) is not modelled, because this file only ever passes two points. The path is returned as its four points rather than as SVG text.
- `Search.Lower`: only ASCII capitals are lowered, whereas `toLowerCase` maps all of Unicode. Strings are sequences of characters, not UTF-16 code units.
- The Blob, object URL and link click of the download are I/O. `Export.ExportText` returns the text that would be downloaded.
- `updateSpacing` and `updateVisualization` are not modelled. `updateSpacing` stores `parseInt(value)` as the horizontal spacing and `parseFloat(value)` as the vertical one, so the horizontal spacing is always an integer (or NaN); the model takes both spacings as arbitrary reals given to `ViewState.Tree.Update`. `updateVisualization` only calls `update` and redraws the legend.
