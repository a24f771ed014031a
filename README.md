# Rainbow admin pages: a verified model

This project models the decision logic of four pages of the Rainbow admin console. The console is a React front end for a matchmaking service. Its reviewers approve member profiles, hand out invitation codes, and browse where members live and who invited whom.

- **Invitation network** (`InvitationTree`, network.dfy).
  - The invitation forest is a recursive `TreeNode` datatype.
  - The collapsed node ids are a `set<int>`.
  - `collectAllIds` is a recursive method with a loop, proved against a specification function. That function is related to an independent pre-order flattening of the forest.
  - "Toggle", "expand all" and "collapse all" are modelled.
  - The recursive `TreeBranch` rendering is modelled twice: as the sequence of node cards it produces, and as a per-node "shown" predicate over index paths.
  - The quality-grade and status-dot colour lookups are modelled.
- **City map** (`CityMap`, citymap.dfy).
  - The bubble colour is classified by approved share. The three bands are characterised exactly by integer cross-multiplication.
  - Cities without truthy coordinates are filtered out.
  - The largest count sets the scale. The marker radius is clamped to [8, 35], with +4 for the selected city.
  - A count label is drawn from two members upward.
  - The marker effect is a class `MarkerSet`: it clears and then pushes marker records in a loop.
  - Selecting a city toggles the selection.
- **Profile review** (`ProfileReview`, profiles.dfy).
  - Photo URL resolution and the date shown in the list are modelled.
  - The reject guard uses the ECMAScript `trim` white-space set, and the confirm button's enabled state is modelled with it.
  - The info grid and the expectation block drop empty values.
  - The approve and reject buttons appear only for a pending profile.
  - The detail modal's open state and `closeDetail` are modelled.
- **Invitation codes** (`InvitationCodes`, invitations.dfy).
  - The count input clamps to [1, 100].
  - `generate` has a range guard.
  - Copying one tile highlights that tile only.
  - The "copy all" text is the codes joined by newlines. It is proved to split back into the codes, and every text splits and re-joins to itself.

Shared pieces:
- `Optional.Option` models a nullable field.
- `Theme` holds the palette constants of src/theme.ts.

Some JavaScript truthiness is written out:
- A coordinate of `0` is falsy.
- An empty string is falsy.
- A selected profile id of `0` does not open the modal. This is modelled as written; see `OpenDetailFromClosed`.

## Model

| member | source | states |
|---|---|---|
| InvitationTree.QualityStyleOf | src/pages/NetworkPage.tsx:87-97 | Grades A–D get their table entry. A null, empty or unknown grade gets the muted surface style. The muted text colour appears exactly for ungraded scores. |
| InvitationTree.QualityColorIdentifiesGrade | src/pages/NetworkPage.tsx:87-92 | The four grade colours are distinct, so the badge colour identifies the grade. |
| InvitationTree.StatusDot | src/pages/NetworkPage.tsx:99-107 | Known statuses get their palette colour. The muted colour is returned exactly for statuses outside the table. |
| InvitationTree.StatusDotIdentifiesStatus | src/pages/NetworkPage.tsx:100-105 | The four status colours are distinct. |
| InvitationTree.CollectAllIds | src/pages/NetworkPage.tsx:399-406 | The loop-and-recursion collection returns exactly `AllIds(nodes)`. |
| InvitationTree.AllIdsIsPreOrderParents | src/pages/NetworkPage.tsx:399-406 | The collected ids are the ids of the nodes that have children, in pre-order: each parent precedes its subtree. |
| InvitationTree.AllIdsConcat | src/pages/NetworkPage.tsx:401-404 | Sibling order is kept: the ids of two forests in sequence are the ids of each, in sequence. |
| InvitationTree.ParentIdsConcat | src/pages/NetworkPage.tsx:401-402 | Filtering a flattened forest to parent ids distributes over concatenation. |
| InvitationTree.ParentIdsMembership | src/pages/NetworkPage.tsx:401-402 | An id is among the parent ids iff some listed node with children carries it. |
| InvitationTree.AllIdsMembership | src/pages/NetworkPage.tsx:399-406 | An id is collected iff some node at any depth has children and carries it. Both directions are stated. |
| InvitationTree.RootsInPreOrder | src/pages/NetworkPage.tsx:400-404 | Every top-level node occurs in the pre-order flattening. |
| InvitationTree.Toggled | src/pages/NetworkPage.tsx:389-396 | Toggling flips the membership of the given id and leaves every other id's membership unchanged. |
| InvitationTree.HandleToggle | src/pages/NetworkPage.tsx:389-396 | Copying the set and then adding or deleting the id yields `Toggled(prev, id)`. The previous set is a value and is not changed. |
| InvitationTree.ToggleTwiceRestores | src/pages/NetworkPage.tsx:389-396 | Toggling the same id twice gives back the original set. |
| InvitationTree.ExpandAll | src/pages/NetworkPage.tsx:408 | `expandAll` collapses nothing: no id is in the new set. |
| InvitationTree.CollapseAll | src/pages/NetworkPage.tsx:408-409 | The collapsed set holds exactly the collected ids, i.e. the ids of the nodes with children at any depth. |
| InvitationTree.ExpandAllShowsEveryNode | src/pages/NetworkPage.tsx:274-283 | With nothing collapsed (`expandAll`), the tree renders every node in pre-order. |
| InvitationTree.CollapsedRootsShowOnlyRoots | src/pages/NetworkPage.tsx:274-283 | When every top-level parent is collapsed, only the top-level nodes are rendered. |
| InvitationTree.CollapseAllShowsOnlyRoots | src/pages/NetworkPage.tsx:408-409 | After `collapseAll` only the top-level nodes are rendered, in their order. |
| InvitationTree.Rendered | src/pages/NetworkPage.tsx:216-292 | The cards `TreeBranch` renders, in document order. Only nodes of the tree are rendered, never more cards than the tree has nodes, and every top-level node is always rendered. |
| InvitationTree.Shown | src/pages/NetworkPage.tsx:274-283 | The per-position reading of the same recursion. A shown position always holds a node. |
| InvitationTree.ShownIffNoCollapsedAncestor | src/pages/NetworkPage.tsx:216-292 | A node card is rendered iff its path exists and no proper ancestor's id is collapsed. |
| InvitationTree.RenderedContainsExpandedBranch | src/pages/NetworkPage.tsx:274-283 | The branch of an expanded node with children is part of the rendered tree. |
| InvitationTree.ShownIsRendered | src/pages/NetworkPage.tsx:216-292 | Every position `Shown` accepts holds a card that `Rendered` produces. |
| InvitationTree.RenderedPosition | src/pages/NetworkPage.tsx:216-292 | For every rendered card it constructs a position that `Shown` accepts and that holds that card. |
| InvitationTree.RenderedIsShown | src/pages/NetworkPage.tsx:216-292 | Every rendered card sits at some position `Shown` accepts. With `ShownIsRendered` the two readings of `TreeBranch` agree. |
| CityMap.StatusDot | src/pages/MapPage.tsx:46-55 | Known statuses get their literal colour. `#55556A` is returned exactly for unknown statuses. |
| CityMap.StatusDotAgreesWithNetworkPage | src/pages/MapPage.tsx:46-55 | The map's literal colours and the network page's palette colours give the same dot for every status. |
| CityMap.ShareAtLeast | src/pages/MapPage.tsx:62-64 | The real-valued share comparison `a/t >= n/d` is equivalent to `d*a >= n*t`. |
| CityMap.BubbleColor | src/pages/MapPage.tsx:58-66 | Accent iff the total is 0. Otherwise green iff the approved+published share is ≥ 0.7, blue iff it is in [0.4, 0.7), amber iff it is < 0.4. Each band is stated as cross-multiplied integers. |
| CityMap.ValidCities | src/pages/MapPage.tsx:310 | Exactly the cities with truthy (present, non-zero) latitude and longitude are kept. A zero coordinate drops the city. |
| CityMap.ValidCitiesConcat | src/pages/MapPage.tsx:310 | The filter keeps the given order: filtering two lists in sequence gives the filtered lists in sequence. |
| CityMap.ValidCitiesKeepsAll | src/pages/MapPage.tsx:310 | When every city has coordinates, the list is kept exactly, including its order and any duplicates. |
| CityMap.MaxCount | src/pages/MapPage.tsx:314 | The scale is at least 1 and at least every valid city's count, and it is 1 or some city's count. |
| CityMap.BaseRadius | src/pages/MapPage.tsx:318 | The radius lies in [8, 35]. It is `8 + 27·count/max` up to the maximum and 35 at or beyond it. |
| CityMap.BaseRadiusMonotone | src/pages/MapPage.tsx:318 | A larger count never gets a smaller bubble. |
| CityMap.LargestCityHasLargestRadius | src/pages/MapPage.tsx:314-318 | The city with the largest count gets radius 35. |
| CityMap.MarkerSet.constructor | src/pages/MapPage.tsx:268 | The marker list starts empty, as `useRef<L.CircleMarker[]>([])` does. |
| CityMap.MarkerSet.PushCity | src/pages/MapPage.tsx:317-379 | One loop pass appends the city's circle (radius +4 when selected) and, from count 2 up, its label. |
| CityMap.MarkerSet.Refresh | src/pages/MapPage.tsx:306-381 | After clearing and looping over the valid cities, the markers are exactly `MarkerLayer(cities, selected)`. |
| CityMap.MarkersOfBounds | src/pages/MapPage.tsx:318-361 | Every marker built from valid cities is one of them: that city's `CircleFor`, or its `LabelFor` when it has at least two users. Unselected circles have radius in [8, 35] and selected ones in [12, 39]. Labels appear only from count 2 up. |
| CityMap.MarkerLayerProperties | src/pages/MapPage.tsx:306-381 | Every marker on the map is the circle of a city with truthy coordinates, or that city's label when it has at least two users. It respects the radius bounds and the label rule. Together with `EveryValidCityIsMarked` the layer holds exactly the valid cities' markers. |
| CityMap.MarkersOfContains | src/pages/MapPage.tsx:316-379 | Every marker of a valid city is in the layer built from the valid cities. |
| CityMap.CityMarkedIn | src/pages/MapPage.tsx:316-379 | Each valid city contributes its circle (`CircleFor`: base radius, +4 when selected, bubble colour) and, from count 2 up, its label (`LabelFor`). |
| CityMap.EveryValidCityIsMarked | src/pages/MapPage.tsx:306-381 | Every city with truthy coordinates gets its circle on the map (base radius, +4 when selected, bubble colour) and, from count 2 up, its count label. |
| CityMap.SelectCity | src/pages/MapPage.tsx:469-471 | Clicking the city whose name is selected clears the selection. Clicking any other city selects it. |
| CityMap.SelectTwiceClears | src/pages/MapPage.tsx:469-471 | Clicking an unselected city twice leaves nothing selected. |
| ProfileReview.PhotoSrc | src/pages/ProfilesPage.tsx:276 | A URL starting with "http" is used unchanged. Otherwise the page origin is prepended. The photo path is always the tail of the result, and the result is absolute when the origin is. |
| ProfileReview.PhotoSrcIdempotent | src/pages/ProfilesPage.tsx:276 | Resolving an already resolved URL changes nothing. |
| ProfileReview.BeforeFirstSpace | src/pages/ProfilesPage.tsx:140 | `split(' ')[0]` is a prefix of the text with no space in it, ending at the first space or at the end. |
| ProfileReview.ListedDate | src/pages/ProfilesPage.tsx:140 | A date is shown exactly when `create_time` is present, and it is the part before the first space (`BeforeFirstSpace`). |
| ProfileReview.TrimStart | src/pages/ProfilesPage.tsx:69 | The result is a suffix without leading white space. Everything removed is white space. |
| ProfileReview.TrimEnd | src/pages/ProfilesPage.tsx:69 | The result is a prefix without trailing white space. Everything removed is white space. |
| ProfileReview.Trim | src/pages/ProfilesPage.tsx:69 | `trim()` is empty iff the text is all white space. A non-empty result neither starts nor ends with white space. |
| ProfileReview.ConfirmRejectEnabled | src/pages/ProfilesPage.tsx:366 | The blank-reason part of the rule: `disabled={!rejectReason.trim()}` is off iff the reason has a character that is not white space. The button is also disabled while the reject request is in flight; that is not modelled (see "## Left out"). |
| ProfileReview.ConfirmReject | src/pages/ProfilesPage.tsx:68-72 | The backend is asked to reject iff a profile is open and the reason has a non-white-space character. The call carries that profile's id and the reason as typed. |
| ProfileReview.ConfirmButtonMatchesGuard | src/pages/ProfilesPage.tsx:364-366 | With a profile open, the enabled state of the confirm button matches exactly when confirming sends a rejection. |
| ProfileReview.FilledRows | src/pages/ProfilesPage.tsx:182-198 | Kept rows have non-empty values taken from the entries. Every entry with a non-empty value is kept. |
| ProfileReview.FilledRowsConcat | src/pages/ProfilesPage.tsx:197 | Filtering keeps the listed order. |
| ProfileReview.FilledRowsAllPresent | src/pages/ProfilesPage.tsx:197-198 | When every value is filled, every row is kept in its place. |
| ProfileReview.InfoEntries | src/pages/ProfilesPage.tsx:182-196 | The info grid lists fourteen entries with pairwise distinct labels, the labels being the rows' React keys. |
| ProfileReview.ExpectationRows | src/pages/ProfilesPage.tsx:243-252 | The expectation block is shown iff the record is present and some value is non-empty. When shown, it lists exactly the non-empty entries and is never empty. |
| ProfileReview.PhotoSrcs | src/pages/ProfilesPage.tsx:263-276 | There is one resolved URL per photo, in order, and none when photos are missing. All are absolute when the origin is. |
| ProfileReview.ViewDetail | src/pages/ProfilesPage.tsx:182-290 | The info grid is the filtered fixed list. The expectation block is shown iff some value is non-empty, and then lists the non-empty entries. The photo strip is `PhotoSrcs(d.photos, origin)`: one resolved URL per photo. The review actions are offered iff the status is pending. |
| ProfileReview.FullProfileShowsEveryInfoRow | src/pages/ProfilesPage.tsx:182-198 | A fully filled profile shows all fourteen info rows in the fixed order. |
| ProfileReview.DetailModalOpen | src/pages/ProfilesPage.tsx:149 | The modal is open only with a selection and a loaded detail, as `!!selectedId && !!detail` requires. |
| ProfileReview.SelectProfile | src/pages/ProfilesPage.tsx:35-36 | `openDetail` first selects the clicked id and leaves the loaded detail as it is. |
| ProfileReview.DetailLoaded | src/pages/ProfilesPage.tsx:37-39 | The response's detail, or nothing, is stored. The selection is kept. |
| ProfileReview.OpenDetailFromClosed | src/pages/ProfilesPage.tsx:35-39 | From the closed modal, selecting a profile does not open it while the detail loads. Once the detail has arrived, it opens exactly when the id is not 0. |
| ProfileReview.CloseDetail | src/pages/ProfilesPage.tsx:84-87 | Both the selection and the loaded detail are cleared, so the modal (`!!selectedId && !!detail`) is closed. |
| InvitationCodes.ClampCount | src/pages/InvitationsPage.tsx:63 | The stored count lies in [1, 100]. A value already in range passes through. Below-range values become 1 and above-range values become 100. |
| InvitationCodes.ClampCountIdempotent | src/pages/InvitationsPage.tsx:63 | Clamping twice is clamping once. |
| InvitationCodes.GenerateRequest | src/pages/InvitationsPage.tsx:18-22 | The backend is called iff 1 ≤ count ≤ 100, with that count and the notes. |
| InvitationCodes.SetCount | src/pages/InvitationsPage.tsx:63 | The new count is `ClampCount(input)`, so the page stays valid. Nothing else changes. |
| InvitationCodes.SetNotes | src/pages/InvitationsPage.tsx:76 | A notes change keeps the page valid and changes only the notes. |
| InvitationCodes.ReceiveCodes | src/pages/InvitationsPage.tsx:23 | The response's codes replace the list. A response without codes empties it. |
| InvitationCodes.CopyCode | src/pages/InvitationsPage.tsx:31-33 | The highlighted index becomes `idx` (`setCopied(idx)`). Nothing else changes. |
| InvitationCodes.CopyExpired | src/pages/InvitationsPage.tsx:34 | The highlighted index becomes -1, so no tile is highlighted. Nothing else changes. |
| InvitationCodes.InitialIsValid | src/pages/InvitationsPage.tsx:12-19 | The initial count 10 passes the generate guard. |
| InvitationCodes.ValidStateIsNeverRefused | src/pages/InvitationsPage.tsx:19 | On every page state the input can produce, `generate` reaches the backend. |
| InvitationCodes.SplitLines | src/pages/InvitationsPage.tsx:38 | A reference inverse of the join (the page itself never splits), with JavaScript `split('\n')` semantics: at least one piece, none containing a newline. |
| InvitationCodes.Results | src/pages/InvitationsPage.tsx:89-148 | With no codes only the placeholder shows and there is no "copy all" button. Otherwise there is one tile per code in order, a tile is highlighted iff its index is the copied one, and "copy all" copies the join. |
| InvitationCodes.CopyHighlightsOnlyThatTile | src/pages/InvitationsPage.tsx:33 | After copying tile `idx` exactly that tile is highlighted. After the reset none is. |
| InvitationCodes.JoinLines | src/pages/InvitationsPage.tsx:38 | `codes.join('\n')`: for one or more codes the text starts with the first code; for two or more a newline follows, and after it comes the join of the rest. So the text is the codes in order with exactly one newline between neighbours. Its length is the codes' total length plus the separators, and it is empty for no codes. |
| InvitationCodes.SplitLinesPrefix | src/pages/InvitationsPage.tsx:38 | A newline-free prefix joins the first piece of what follows it. |
| InvitationCodes.SplitJoinedCodes | src/pages/InvitationsPage.tsx:38 | The "copy all" text splits back into exactly the codes, provided there is at least one and none contains a newline. |
| InvitationCodes.JoinLinesCons | src/pages/InvitationsPage.tsx:38 | Joining puts the first code, a newline, then the join of the rest. |
| InvitationCodes.JoinSplitLinesStep | src/pages/InvitationsPage.tsx:38 | Putting one character in front of a text that re-joins from its pieces gives a text that re-joins too. This is the induction step of `JoinSplitLines`. |
| InvitationCodes.JoinSplitLines | src/pages/InvitationsPage.tsx:38 | Splitting any text on newlines and joining the pieces again gives the text back. |

## Left out

- The force-directed network canvas, hit-testing, pan, zoom and drag do not exist in the page code, so there is nothing to model.
- src/api.ts (fetch, headers, JSON parsing, token handling) is not part of this model. Backend calls appear only as request records (`RejectCall`, `GenerateCall`) and response parameters.
- Leaflet is left out: map construction, tile layers, tooltips, hover styles, `flyTo`, fill opacity, stroke width and label font size. Markers are records carrying what the page decides about them: city, radius, colour, selection, label.
- `MarkerSet.Refresh` does not model the effect's early return when the Leaflet map does not exist yet. That is foreign-library state.
- Async handlers, loading flags, toasts, `navigator.clipboard` and the `setTimeout` that resets `copied` are left out. The reset is modelled as a separate transition (`CopyExpired`) with no timer.
- `ConfirmRejectEnabled`: the shared `Button` also disables itself while `loading` is set (src/components/UI.tsx:66), so the confirm button is disabled while `actionLoading === 'reject'` (src/pages/ProfilesPage.tsx:367). The model states only the blank-reason rule.
- Floating-point rounding is not modelled. The bubble share and the radius use exact reals, so a share that rounds onto 0.7 or 0.4 in IEEE arithmetic may classify differently.
- `ClampCount`: the input is an integer. NaN and fractional results of `+e.target.value` are not modelled.
- Lookup tables are finite maps. JavaScript prototype keys such as `"constructor"` in `QUALITY_COLORS[score]`, `STATUS_COLORS[status]` and the status map are not modelled.
- The expectation record's entries are a sequence in enumeration order. JavaScript's ordering of integer-like keys is not modelled.
- City counts and status counts are naturals. The types declare them only as `number`, so this assumes the backend never sends a negative or fractional count; such a count is not modelled.
- `CircleFor`, `LabelFor`, `MarkersFor`, `MarkersOf` and `MarkerLayer` have no contracts of their own. Their properties are stated by `MarkersOfBounds`, `MarkerLayerProperties`, `CityMarkedIn` and `EveryValidCityIsMarked`.
- TreeNodeCard layout, the connector lines, animation delays, the inviter ranking, the hobbies and lifestyle blocks, the profile header, status labels and the list's fallback texts are presentation only and are not modelled.
- `DetailModalOpen` follows the code: a selected id of `0` is falsy and keeps the modal closed. Nothing in the page code or its types says whether the backend ever issues id 0. The model assumes it does not; if it did, that profile's detail could never be opened.
