# AZCore.js core, modelled in Dafny

This project models the four sequential pieces of `SRC/AZCore.js` that have
behaviour worth stating. It proves what they promise.

- **Routing** (`routes.dfy`, over `strings.dfy`) covers three things:
  - `AZRouter.onMATCH` is a first-match search over the route table. Patterns and URLs are split on `/`, and a `:name` segment is a wildcard.
  - `AZRouter.onPARAMS` gives `on` (the path before `?`), then the query pairs spread over it, then the path parameters written over both.
  - The URL `navigateTo` pushes is also modelled: the first occurrence of the root is cut, and the result gets a `#` or root prefix.
- **Reconciling** (`reconcile.dfy`, `dom.dfy`) models `diffAndPatch`:
  - The live document is a heap of `Node` objects. Each has a mutable text, attribute map, boolean properties and children.
  - `Dom.DiffAndPatch` and the methods below it patch that heap in place.
  - They are proved to produce exactly the value-level functions `Reconcile.Patch` and `Reconcile.Walk`.
  - The properties of the reconciled tree are proved about those functions.
  - Preserve selectors become a per-node `keep` flag. A text node has no `matches` method, so it is never preserved.
- **Navigation** (`navigation.dfy`) models `AZRouter.onPROCESS`:
  - URL matching and parameter extraction come first.
  - Then twelve awaited steps run in a fixed order. `World.throws` says which of them throw. `onAFFIX` catches the errors of the user's callbacks, so resolving the view, the guards, `onLEAVE`, `onLOADED` and `onSCROLLstore` never throw; `Navigation.Feasible` says so.
  - `onPREVIOUS` is committed only once all of the steps have completed.
  - The three steps that touch the router's own state are modelled: `onSCROLLstore`, `onREDIRECT` and `onSCROLLY`. A `World` value decides which steps throw and what a redirect callback answers.
  - The class `Navigator` holds the router's mutable state. Its methods are proved against the function `Navigation.Transition`.
- **State** (`state.dfy`) models `AZState`:
  - a map-valued state;
  - a change gate that notifies listeners, in subscription order, only when the state really changes;
  - a listener set;
  - an action registry with the source's error messages.

  JSON-serialised equality is modelled as map equality.

Conventions:
- Strings are `seq<char>`.
- A JavaScript option that is absent or falsy (`options.x || default`) is `""`.
- A missing DOM node is `null`.

## Model

| member | source | states |
|---|---|---|
| Strings.Split | SRC/AZCore.js:616-628 | `String.prototype.split` on one character: there is always at least one piece, and no piece contains the separator |
| Strings.Join | SRC/AZCore.js:616-628 | the inverse of `split`: the pieces with the separator between them; the first piece is a prefix of the result |
| Strings.JoinSplit | SRC/AZCore.js:616-628 | joining the pieces of a split with the separator gives back the original string |
| Strings.SplitJoin | SRC/AZCore.js:616-628 | splitting a join of separator-free pieces gives back the pieces |
| Strings.SplitPiece | SRC/AZCore.js:616-628 | a string without the separator splits into itself alone |
| Strings.SplitAfter | SRC/AZCore.js:616-628 | the first piece ends at the first separator, and the rest of the string splits on |
| Strings.SplitHead | SRC/AZCore.js:622 | the first piece (`split('?')[0]`) is a prefix that ends at the end of the string or at a separator |
| Strings.SplitChars | SRC/AZCore.js:616-628 | every character of a piece occurs in the split string |
| Strings.IndexFrom | SRC/AZCore.js:454 | the first position from `k` where the pattern occurs, or none when it occurs nowhere from `k` |
| Strings.RemoveFirst | SRC/AZCore.js:454 | `replace(root, '')`: when the root occurs, its first occurrence is cut out and the rest kept in order; when it occurs nowhere, the string is unchanged |
| Strings.RemoveLeading | SRC/AZCore.js:454 | when the string starts with the root, the root is cut from the front |
| Routes.IsParam | SRC/AZCore.js:618 | `seg.startsWith(':')`: a parameter segment |
| Routes.SegmentFits | SRC/AZCore.js:618 | a pattern segment fits a URL segment when it is a parameter or equal to it |
| Routes.Matches | SRC/AZCore.js:617-618 | the `find` predicate: as many `/`-segments in pattern and URL, each pattern segment fitting the URL segment at its index; its properties are `Routes.MatchesThrough`, `Routes.QueryDefeatsLiteral` and `Routes.HashUrlUnmatched` |
| Routes.Match | SRC/AZCore.js:616-620 | the first route in table order whose pattern matches; none exactly when no route matches |
| Routes.MatchFrom | SRC/AZCore.js:616-620 | the same first-match search, from index `k` on |
| Routes.MatchesThrough | SRC/AZCore.js:616-620 | matching is transitive: a pattern matching a more specific pattern also matches every URL that one matches |
| Routes.Shadowed | SRC/AZCore.js:616-620 | a route whose pattern is matched by an earlier route's pattern is never chosen (`/users/:id` listed first wins for `/users/new`) |
| Routes.QueryDefeatsLiteral | SRC/AZCore.js:617-618 | a URL segment carrying `?query` never equals a literal pattern segment, so such a route cannot match |
| Routes.LastParam | SRC/AZCore.js:624-627 | the index of a `:name` segment named `k` with no later one so named; none exactly when no segment from `i` on is so named |
| Routes.Names | SRC/AZCore.js:625 | the pattern segment is the parameter `:k` (`seg.slice(1)`) |
| Routes.PathOf | SRC/AZCore.js:622 | `onURL.split('?')[0]`: the longest prefix without `?`, ending at the end of the URL or at its first `?` |
| Routes.QueryOf | SRC/AZCore.js:623 | `onURL.split('?')[1] \|\| ''`: the text after the first `?` up to the next one, without `?` |
| Routes.NameValue | SRC/AZCore.js:623 | one `name=value` piece split at its first `=`: the name has no `=`, and the piece is the name alone or name, `=` and value |
| Routes.PairsOf | SRC/AZCore.js:623 | the pairs of the non-empty pieces, at most one per piece, none with `=` in its name |
| Routes.Pairs | SRC/AZCore.js:623 | the query's `&`-pieces as name/value pairs, at most one per piece, none with `=` in its name |
| Routes.FromEntries | SRC/AZCore.js:623 | `Object.fromEntries`: each pair written over the earlier ones; its properties are `Routes.FromEntriesLast` and `Routes.FromEntriesKeys` |
| Routes.Query | SRC/AZCore.js:623 | the query parameters of a URL: `FromEntries` of the pairs of `QueryOf` |
| Routes.FoldParams | SRC/AZCore.js:624-627 | the `reduce` over the pattern segments; its result is stated by `Routes.FoldParamsValue` and `Routes.FoldParamsFaults` |
| Routes.Params | SRC/AZCore.js:621-628 | `onPARAMS`: the fold started from `on` and the query; its result is stated by `Routes.ParamsValue`, `Routes.ParamsFault` and `Routes.MatchedParams` |
| Routes.FoldParamsValue | SRC/AZCore.js:624-626 | after the `reduce`, a name holds the URL segment, cut at `?`, of its last parameter segment, or else what it held before |
| Routes.FoldParamsFaults | SRC/AZCore.js:625 | the `reduce` faults exactly when a parameter segment lies past the URL's last segment |
| Routes.ParamsValue | SRC/AZCore.js:621-628 | every key of `onPARAMS`: a path parameter wins over a query key, and a query key wins over `on`, which is the path before the first `?` |
| Routes.ParamsFault | SRC/AZCore.js:621-628 | `onPARAMS` faults exactly on a parameter segment beyond the URL's segments |
| Routes.MatchedParams | SRC/AZCore.js:459-460 | after a match `onPARAMS` does not fault, and `on` is always a key |
| Routes.FromEntriesLast | SRC/AZCore.js:623 | `Object.fromEntries`: the last pair written for a name gives its value |
| Routes.FromEntriesKeys | SRC/AZCore.js:623 | a name is a key exactly when some query pair carries it |
| Routes.BuildUrl | SRC/AZCore.js:454 | the URL `navigateTo` pushes: in hash mode it starts with `#`, otherwise with the root |
| Routes.HashUrlUnmatched | SRC/AZCore.js:454-459 | in hash mode the URL handed to `onPROCESS` starts with `#`, so no pattern starting with `/` matches it, and every such navigation goes to `on404` |
| Routes.BuildUrlRooted | SRC/AZCore.js:454 | in history mode, a URL that already starts with the root is pushed unchanged |
| Routes.BuildUrlIdempotent | SRC/AZCore.js:454 | in history mode, building the pushed URL twice gives the same URL as building it once |
| Routes.RootCutAnywhere | SRC/AZCore.js:454 | the root is cut wherever it first occurs, not only at the front: `/x/app/y` under root `/app` becomes `/app/x/y` |
| Navigation.RestoreSetting | SRC/AZCore.js:558 | `onSCROLL?.RESTORE \|\| this.onSCROLL.RESTORE`: the route's setting, or the router's when the route has none |
| Navigation.StoreOf | SRC/AZCore.js:548-556 | `onSCROLLstore`: with a previous visit, its `on` and the current offsets; otherwise the storage as it was |
| Navigation.RedirectTarget | SRC/AZCore.js:500-509 | `onREDIRECT`: one navigation to the callback's `ON` when the route redirects and the answer asks for it, none otherwise; proved about in `Navigation.RunStarted` |
| Navigation.Restored | SRC/AZCore.js:557-571 | `onSCROLLY`: the stored offsets when restore is on and the `on` values agree, (0, 0) when restore is on and they differ, the offsets as they were when it is off; proved about in `Navigation.ScrollRoundTrip` and `Navigation.ScrollToTop` |
| Navigation.Effect | SRC/AZCore.js:463-485 | no step changes `onPREVIOUS` or the record of steps entered |
| Navigation.Run | SRC/AZCore.js:461-489 | the steps from the `k`-th on, each completing with its effect until one throws; stated by `Navigation.RunThrown`, `Navigation.RunRan`, `Navigation.RunStorage`, `Navigation.RunStarted` and `Navigation.RunPosition` |
| Navigation.Done | SRC/AZCore.js:461-489 | the index of the first throwing step from `k` on: all the steps before it complete |
| Navigation.VisitOf | SRC/AZCore.js:459-460 | a matched route's parameters always carry `on` |
| Navigation.Transition | SRC/AZCore.js:458-491 | `onPROCESS`: an unmatched URL faults after starting `on404`; a matched one runs the steps and commits only when none threw; stated by `Navigation.CommitOnlyOnSuccess`, `Navigation.StepOrder` and `Navigation.NotFoundFaults` |
| Navigation.PipelineIndex | SRC/AZCore.js:467-481 | `onSCROLLstore`, `onREDIRECT` and `onSCROLLY` are the 3rd, 5th and 10th steps |
| Navigation.RunThrown | SRC/AZCore.js:461-489 | the pipeline never touches `onPREVIOUS`, and ends at the first step that throws |
| Navigation.Reached | SRC/AZCore.js:461-489 | the number of steps entered from the `k`-th on: up to and including the first that throws |
| Navigation.RunRan | SRC/AZCore.js:461-485 | the steps are entered in source order, up to and including the first that throws |
| Navigation.RunStorage | SRC/AZCore.js:548-556 | `onSCROLL.STORAGE` changes only when `onSCROLLstore` completes |
| Navigation.RunStarted | SRC/AZCore.js:500-509 | navigations are started only when `onREDIRECT` completes with a redirect |
| Navigation.RunPosition | SRC/AZCore.js:557-571 | the scroll offsets change only when `onSCROLLY` completes, and then from the storage written by this same navigation |
| Navigation.Smooth | SRC/AZCore.js:461-489 | no step of the pipeline throws |
| Navigation.CommitOnlyOnSuccess | SRC/AZCore.js:458-491 | `onPREVIOUS` is assigned (the matched route and its parameters) exactly when the URL matched and no step threw; otherwise it is unchanged |
| Navigation.StepOrder | SRC/AZCore.js:458-491 | all twelve steps in order on a commit; on a caught error, the steps up to and including the one that threw; none on a fault |
| Navigation.MayThrow | SRC/AZCore.js:246-274 | the steps that can throw at all: not resolving the view, `onSCROLLstore`, the guards, `onLEAVE` or `onLOADED`, whose callbacks run inside `onAFFIX`'s `try` |
| Navigation.Feasible | SRC/AZCore.js:246-274 | a world the program can meet: only steps that can throw do |
| Navigation.CaughtOnlyWhereThrowable | SRC/AZCore.js:461-490 | in a feasible world, an error is caught only from a step that can throw and that throws; so a failing guard, `onLEAVE` or `onLOADED` callback never cancels the navigation |
| Navigation.NotFoundFaults | SRC/AZCore.js:459-460 | an unmatched URL starts the navigation to `on404`, then faults outside the `try` with nothing else changed |
| Navigation.RedirectDoesNotStop | SRC/AZCore.js:500-509 | a redirect starts its navigation, but the current navigation still commits when no step throws |
| Navigation.ScrollRoundTrip | SRC/AZCore.js:548-571 | arriving at the same `on` with restore on leaves the window at the offsets it started from, and those offsets are stored with that `on` |
| Navigation.ScrollToTop | SRC/AZCore.js:557-569 | arriving at a different `on` with restore on scrolls to (0, 0) |
| Navigation.StorageKeptOnFailure | SRC/AZCore.js:461-490 | a step that throws after `onSCROLLstore` leaves `onPREVIOUS` as it was, but the stored scroll entry is not rolled back |
| Navigation.Navigator.constructor | SRC/AZCore.js:388-427 | options default to `/`, `/404`, `history` and `ON`; the storage starts empty; then the window's URL is processed |
| Navigation.Navigator.StoreScroll | SRC/AZCore.js:548-556 | with a previous visit, its `on` and the current offsets are stored; otherwise nothing changes |
| Navigation.Navigator.RedirectIfAsked | SRC/AZCore.js:500-509 | a redirect starts a navigation exactly when `REDIRECT` (default `OFF`) is `ON` and `ON` is non-empty |
| Navigation.Navigator.RestoreScroll | SRC/AZCore.js:557-571 | with restore on, the stored offsets when the `on` values agree, otherwise (0, 0); with restore off, no change |
| Navigation.Navigator.Process | SRC/AZCore.js:458-491 | the new router state and the outcome are exactly `Transition` of the old state |
| Navigation.Navigator.RunPipeline | SRC/AZCore.js:461-489 | the loop over the steps computes exactly `Run` from the first step |
| Navigation.Navigator.RunStep | SRC/AZCore.js:463-485 | one completed step changes the router's state as `Effect` says |
| Navigation.Navigator.NavigateTo | SRC/AZCore.js:453-457 | the rebuilt URL is processed |
| State.Update | SRC/AZCore.js:107 | the updater's result: a function's return value, or the object spread over the state; stated by `State.MergeUnchanged` and `State.MergeTwice` |
| State.Notices | SRC/AZCore.js:111 | `forEach` calls each listener once with the new state, in insertion order |
| State.Without | SRC/AZCore.js:130 | `delete` removes exactly the given listener |
| State.ActionFor | SRC/AZCore.js:114-124 | a function or a registered name dispatches; anything else raises `DISPATCH ERROR: Invalid action "…".` |
| State.MergeUnchanged | SRC/AZCore.js:105-113 | spreading an object over the state changes it exactly when some key does not already hold its value |
| State.MergeTwice | SRC/AZCore.js:105-113 | spreading the same object twice gives the same state as once, so the second call notifies no one |
| State.DispatchRegistered | SRC/AZCore.js:114-137 | a name dispatches to the function registered last under it |
| State.NoticesSnoc | SRC/AZCore.js:111 | adding a listener at the end adds its call at the end |
| State.WithoutDistinct | SRC/AZCore.js:125-131 | deleting from a set of distinct listeners keeps them distinct |
| State.Store.constructor | SRC/AZCore.js:98-101 | the initial state, no actions, no listeners |
| State.Store.GetState | SRC/AZCore.js:102-104 | a copy of the current state |
| State.Store.SetState | SRC/AZCore.js:105-113 | the state becomes the updater's result, and every listener is called with it in order, exactly when it differs from the old state |
| State.Store.Subscribe | SRC/AZCore.js:125-131 | a non-function is rejected with `SUBSCRIBE REQUIRES A FUNCTION.`; a function joins the set once |
| State.Store.Unsubscribe | SRC/AZCore.js:130 | the listener is no longer in the set; the others are kept, and stay distinct |
| State.Store.Register | SRC/AZCore.js:132-137 | a non-string name or non-function action is rejected with the source's message; otherwise the name maps to the action |
| State.Store.Dispatch | SRC/AZCore.js:114-124 | the action to call, or the error for an unknown name |
| Reconcile.PropsOf | SRC/AZCore.js:203-205 | `checked`, `disabled` and `selected` each equal "the attribute is present" |
| Reconcile.Preserved | SRC/AZCore.js:161-167 | `preserve.some(selector => node.matches?.(selector))`: an element flagged `keep`; a text node never |
| Reconcile.Similar | SRC/AZCore.js:174-175 | same `nodeType` and same `nodeName` |
| Reconcile.Patch | SRC/AZCore.js:178-244 | the patched node keeps the old node's identity, tag and preserve status, and is similar to the new node |
| Reconcile.Walk | SRC/AZCore.js:209-243 | the two-cursor child walk over snapshots; stated by `Reconcile.WalkKeepsPreserved`, `Reconcile.WalkLength`, `Reconcile.WalkMirrors` and the lemmas below |
| Reconcile.Quiet | SRC/AZCore.js:179-206 | reconciling the pair writes nothing: the same text, the same attribute map, and a quiet child walk |
| Reconcile.QuietWalk | SRC/AZCore.js:209-243 | the child walk writes nothing: no append, no remove, no replace, every paired child quiet |
| Reconcile.WalkKeepsPreserved | SRC/AZCore.js:217-228 | a preserved old child is never removed or replaced by the child walk |
| Reconcile.WalkLength | SRC/AZCore.js:209-243 | the walk leaves every new child plus the preserved old children; all other old children are dropped |
| Reconcile.WalkWithoutNew | SRC/AZCore.js:217-223 | once the new children run out, exactly the preserved old children remain, in order |
| Reconcile.WalkAppendsSurplus | SRC/AZCore.js:212-216 | each non-preserved old child consumes one new child, and the surplus new children are appended at the end, in order |
| Reconcile.WalkExtends | SRC/AZCore.js:209-243 | once the new children cover every non-preserved old child, further new children pass through untouched, after everything else |
| Reconcile.WalkPastPreserved | SRC/AZCore.js:224-228 | when every old child is preserved, all new children are appended after them |
| Reconcile.UnpreservedAppend | SRC/AZCore.js:209-243 | setting preserved children aside distributes over concatenation |
| Reconcile.UnpreservedNone | SRC/AZCore.js:209-243 | a list without preserved nodes is unchanged when the preserved ones are set aside |
| Reconcile.Mirrors | SRC/AZCore.js:178-244 | the reconciled tree reproduces the new tree: inserted as a whole, or with its text, attributes, synced properties and, preserved children aside, children that mirror it |
| Reconcile.PatchMirrors | SRC/AZCore.js:178-244 | at every depth, the reconciled tree has the new tree's text, exactly its attribute map, synced properties, and children that mirror it (preserved ones aside) |
| Reconcile.WalkMirrors | SRC/AZCore.js:209-243 | the walked children, preserved ones aside, mirror the new children one by one |
| Reconcile.PatchIdentical | SRC/AZCore.js:178-244 | patching a tree against one of the same shape changes nothing and writes nothing (`Quiet`): every node keeps its identity and content |
| Reconcile.WalkIdentical | SRC/AZCore.js:209-243 | walking children against children of the same shape keeps the old children and writes nothing (`QuietWalk`) |
| Reconcile.SameShapeReflexive | SRC/AZCore.js:178-244 | every tree has its own shape |
| Reconcile.PatchIdempotent | SRC/AZCore.js:178-244 | reconciling twice against the same freshly built tree gives the same result as once |
| Reconcile.WalkIdempotent | SRC/AZCore.js:209-243 | walking twice against the same new children gives the same result as once |
| Reconcile.PreservedOnlyIdempotent | SRC/AZCore.js:217-228 | keeping only the preserved children twice is the same as once |
| Reconcile.First | SRC/AZCore.js:162-240 | the position the DOM finds a child at: it holds the child, and no earlier position does |
| Reconcile.Drop | SRC/AZCore.js:162-240 | `removeChild`, and the move out of its old place that `appendChild`/`replaceChild` make of a child already in the list: the first occurrence is cut out, the others keep their order; a list without it is unchanged |
| Reconcile.DropAt | SRC/AZCore.js:162-240 | a child found after `a` is taken out from between `a` and `b` |
| Reconcile.Put | SRC/AZCore.js:174-240 | `replaceChild(y, x)`: the first occurrence of `x` becomes `y` in its place, the others keep their order; a list without `x` is unchanged |
| Reconcile.PutAt | SRC/AZCore.js:174-240 | a child found after `a` is exchanged in place between `a` and `b` |
| Reconcile.SelfWalk | SRC/AZCore.js:209-243 | the child walk when old and new children are one live list: every child keeps its identity, and the snapshot keeps its length |
| Reconcile.SelfWalkCopiesPreserved | SRC/AZCore.js:209-243 | a preserved `<meta azcore name="a">` followed by `<meta name="b">`, walked against itself, leaves the second meta with the first one's attributes |
| Reconcile.SelfWalkRestoresOrder | SRC/AZCore.js:209-243 | a preserved `<link azcore>` followed by a `<title>`, walked against itself: the link takes the title's place by `replaceChild`, the title is appended again, and the list ends in its old order with the title still in it |
| Reconcile.ReflectsDisabled | SRC/AZCore.js:203-205 | the form controls, whose `disabled` property reflects the `disabled` attribute |
| Reconcile.SyncedAsWritten | SRC/AZCore.js:190-205 | the attribute map as written: the new map, with `disabled` set to the empty string on a form control that has it; keys and boolean properties as in the new map |
| Reconcile.DisabledRewritten | SRC/AZCore.js:203-205 | against a tree of the same shape, `Patch` and `Quiet` leave a disabled form control alone, while as written its `disabled` attribute is set again and changes exactly when it is not empty |
| Reconcile.DisabledButtonRewritten | SRC/AZCore.js:203-205 | `<button disabled="disabled">` against an identical tree ends up reading `disabled=""` as written |
| Dom.Node.Model | SRC/AZCore.js:155-245 | the snapshot of a live subtree carries its identity, type, name and preserve status |
| Dom.Node.Contains | SRC/AZCore.js:168 | `Node.contains`: the node itself or a descendant |
| Dom.Node.SetAttributes | SRC/AZCore.js:190-195 | the map becomes the old map overwritten by the new one, and the names set are exactly those absent or holding another value |
| Dom.Node.RemoveAttributes | SRC/AZCore.js:196-201 | over a snapshot of the names, exactly the attributes the new node lacks are removed, and only those names are written |
| Dom.ContainsIn | SRC/AZCore.js:168 | some subtree of a child list contains the node |
| Dom.ForestAppend | SRC/AZCore.js:212-216 | appending a disjoint subtree to a child list keeps it a forest, and extends its nodes and its snapshot |
| Dom.ReprsConcat | SRC/AZCore.js:209-243 | the nodes of two child lists side by side are the nodes of each |
| Dom.ForestParts | SRC/AZCore.js:209-243 | the two halves of a valid child list are valid, disjoint child lists |
| Dom.ForestHead | SRC/AZCore.js:209-243 | the first child's subtree is valid and apart from the rest |
| Dom.ForestSplit | SRC/AZCore.js:217-242 | a child list cut at one child: the children before, that child and the children after, pairwise disjoint, the child appearing once |
| Dom.ForestConcat | SRC/AZCore.js:209-243 | two disjoint valid child lists make one |
| Dom.ForestRemoved | SRC/AZCore.js:160-163 | a child list without one child is valid and holds all nodes but that child's subtree |
| Dom.ForestReplaced | SRC/AZCore.js:174-176 | a child list with one child exchanged for an outside subtree is valid and holds exactly the exchanged nodes |
| Dom.ChildApart | SRC/AZCore.js:178-244 | a child's subtree lies inside its parent's, apart from the parent and from its siblings' subtrees |
| Dom.Adopt | SRC/AZCore.js:155-176 | after a change of children the parent is a valid subtree of itself and those children |
| Dom.Regather | SRC/AZCore.js:178-244 | after a child's subtree changed the parent is again a valid subtree |
| Dom.AppendChild | SRC/AZCore.js:157-169 | `appendChild` of an outside node: it becomes the last child, its subtree joins the parent's, the parent stays valid |
| Dom.RemoveChild | SRC/AZCore.js:162 | `removeChild` of a child: it leaves with its subtree, the others keep their order, the parent stays valid |
| Dom.ReplaceChild | SRC/AZCore.js:175 | `replaceChild` of a child by an outside node: it takes the child's place, the parent stays valid |
| Dom.PatchChild | SRC/AZCore.js:178-244 | patching a child in place: the child becomes `Reconcile.Patch` of the two snapshots, writing exactly when not `Quiet`, the parent keeps its children and stays valid |
| Dom.DiffAndPatch | SRC/AZCore.js:155-245 | the cases. No old node: the new node becomes the last child. No new node: the old node is removed exactly when not preserved. A non-preserved old node given as the new one: nothing is written. A preserved node stays, and is re-appended when the parent does not contain it. A different type or name: the new node takes the old node's place. Otherwise the old node is patched to `Reconcile.Patch`, writing exactly when not `Quiet`. Each DOM exception faults with nothing written. The parent stays a valid subtree, unless a patched old node lies deeper inside it |
| Dom.PatchNode | SRC/AZCore.js:178-244 | a similar, non-preserved old node is updated in place to exactly `Reconcile.Patch` of the two snapshots; the document is written exactly when the pair is not `Quiet`, and never against a freshly built tree of the same shape |
| Dom.PatchText | SRC/AZCore.js:179-184 | the text node keeps its identity and ends with the new text, and is written exactly when the texts differ |
| Dom.PatchElement | SRC/AZCore.js:186-244 | an element takes the new attributes, properties and children, writing exactly when the pair is not `Quiet` |
| Dom.SyncAttributes | SRC/AZCore.js:186-206 | the attribute map equals the new node's exactly, and is written exactly when it differed; `checked`, `disabled` and `selected` equal "the new node has that attribute" |
| Dom.SetThenPrune | SRC/AZCore.js:190-201 | setting every new attribute and then removing those the new node lacks leaves exactly the new map |
| Dom.NoWritesIffEqual | SRC/AZCore.js:190-201 | nothing is set and nothing removed exactly when the two attribute maps are already equal |
| Dom.PatchChildren | SRC/AZCore.js:207-243 | the old element's children become `Reconcile.Walk` of the old and new children, writing exactly when the walk is not `QuietWalk`; attributes untouched |
| Dom.WalkChildren | SRC/AZCore.js:209-243 | the loop ends with every snapshot consumed, having built the whole walk, and has written exactly when the walk was not quiet |
| Dom.WalkStep | SRC/AZCore.js:210-242 | each round advances `oldIndex`, `newIndex` or both, keeps the walk invariant, and writes exactly when its own step is not quiet |
| Dom.WalkStart | SRC/AZCore.js:207-209 | the invariant holds before the first round |
| Dom.AppendNew | SRC/AZCore.js:212-216 | with no old child left, the new child is appended, which is a write |
| Dom.RemoveOld | SRC/AZCore.js:217-223 | with no new child left, a non-preserved old child is removed, which is a write |
| Dom.KeepOld | SRC/AZCore.js:217-228 | a preserved old child stays where it is, no new child is consumed, and nothing is written |
| Dom.ReplaceOld | SRC/AZCore.js:238-242 | a dissimilar old child is replaced by the new child in place, which is a write |
| Dom.PatchPair | SRC/AZCore.js:229-237 | a similar pair is patched recursively, the old child keeps its place, and it writes exactly when the pair is not `Quiet` |
| Dom.PatchHead | SRC/AZCore.js:234 | the recursive `diffAndPatch` call on the pair, writing exactly when the pair is not `Quiet` |
| Dom.Finish | SRC/AZCore.js:209-244 | at loop exit the element is a valid subtree whose children snapshot is the whole walk |
| Dom.Uncons | SRC/AZCore.js:209-243 | the head and the tail of a forest |
| Dom.AppendStep | SRC/AZCore.js:212-216 | the value-level walk agrees with appending, and is not quiet |
| Dom.RemoveStep | SRC/AZCore.js:217-223 | the value-level walk agrees with removing, and is not quiet |
| Dom.KeepStep | SRC/AZCore.js:224-228 | the value-level walk agrees with skipping a preserved child, and is quiet exactly when the rest of it is |
| Dom.ReplaceStep | SRC/AZCore.js:238-242 | the value-level walk agrees with replacing, and is not quiet |
| Dom.PairStep | SRC/AZCore.js:229-237 | the value-level walk agrees with patching a similar pair, and is quiet exactly when the pair and the rest are |
| Dom.PairDone | SRC/AZCore.js:234-236 | the recursive patch leaves the rest of the walk as it was |
| Dom.LayoutFrame | SRC/AZCore.js:234 | subtrees whose nodes did not change keep their layout |
| Dom.ForestFrame | SRC/AZCore.js:234 | a forest whose nodes did not change is the same forest |
| Dom.NodeFrame | SRC/AZCore.js:234 | a subtree whose nodes did not change is the same subtree |
| Dom.Regrown | SRC/AZCore.js:234 | the untouched siblings around a patched child form one valid child list with it again |
| Dom.JoinStep | SRC/AZCore.js:234-236 | the patched old child is placed after the children already placed |
| Dom.WalkEnd | SRC/AZCore.js:209 | when both snapshots are consumed, the placed children are the whole walk |
| Dom.WalkAppendEq | SRC/AZCore.js:212-216 | the value-level walk of an empty old list appends |
| Dom.WalkRemoveEq | SRC/AZCore.js:217-223 | the value-level walk drops a non-preserved old child when no new child is left |
| Dom.WalkKeepEq | SRC/AZCore.js:224-228 | the value-level walk keeps a preserved old child |
| Dom.WalkHeadEq | SRC/AZCore.js:229-242 | the value-level walk patches or replaces a non-preserved head |

## Left out

- `AZElement` and `AZFragment` (SRC/AZCore.js:52-91) are left out. They build live DOM through host calls.
- `AZProgress` (SRC/AZCore.js:278-383) is left out. It runs on timers, randomness and floating-point progress; `onPROGRESSSTART`/`onPROGRESSEND` are opaque steps.
- `transitionOUT`/`transitionIN` (SRC/AZCore.js:572-590, 598-615) are opaque steps. They only toggle CSS classes with 500 ms timers.
- `onAFFIX` (SRC/AZCore.js:246-274), `onBEFOREX`, `onLEAVE`, `onLOADED` and `onRENDERER` are opaque steps. Whether a step throws comes from `World.throws`, and a redirect callback's answer comes from `World.reply`. The promise awaiting, the user callbacks and the `console.error` swallowing are left out.
- Navigation.Transition: any set of steps may be given as throwing; only a `Navigation.Feasible` world is one the program can meet, and `Navigation.CaughtOnlyWhereThrowable` states the outcomes for those. A view that `onAFFIX` fails to resolve is swallowed there and surfaces as `Render` throwing (`onVIEW.VIEW` of `undefined`, SRC/AZCore.js:595); the model expresses it by `Render` in `World.throws`.
- The `diffAndPatch` calls made from `onRENDERER` (SRC/AZCore.js:594-595) are not linked to the pipeline. The reconciler is modelled on its own.
- Percent-decoding and `+` handling of the query string (the form-urlencoded parser of the WHATWG URL Standard, section 5.1) are not modelled. Splitting on `&` and the first `=` is modelled.
- Browser plumbing is left out: `history.pushState`/`replaceState`, `window.location` in `onURL`, and the `popstate` and click listeners. The window's scroll offsets are a parameter of the constructor; `window.scrollTo` is the write to `Navigator.position`, and its `behavior` is dropped. `onDEVM` logging and the UMD wrapper are also left out.
- Navigation.Navigator.NavigateTo: the history entry is not pushed, and the `replace`/`state` options are not modelled.
- Navigation.Transition: overlapping and nested navigations are not run. A redirect or the fallback to `on404` starts a navigation that would begin running before the current one resumes. The model records its URL in `started` and leaves it for the caller to process. As a consequence, the unbounded recursion that happens when the `on404` URL itself matches no route is not modelled.
- Route affixes other than `on`, `onSCROLL.RESTORE` and the presence of `onREDIRECT` are not represented. `onSCROLL.BEHAVIOR` is dropped.
- Dom.DiffAndPatch: `appendChild`/`replaceChild` also detach the inserted node from the new tree; the model leaves the new tree as it was. Detaching a preserved node from a former parent outside `parent` is not modelled either.
- Dom.DiffAndPatch: a new node other than the old one must lie outside the parent's subtree and the old node's. A new node taken from inside the same document, which `appendChild`/`replaceChild` would move, is not modelled. The old node given again as the new one is modelled; see "## Findings".
- Dom.DiffAndPatch: when the patched old node lies deeper inside the parent's subtree than a child, the parent is not promised to stay a valid subtree, because its recorded node set is not recomputed along the path.
- Dom.PatchElement: the assignments of `checked`, `disabled` and `selected` (SRC/AZCore.js:203-205) are modelled as live properties (`Props`) and not counted as writes. That holds for `checked` and `selected`, which set live state only, and for `disabled` on elements that are not form controls. On a form control (`Reconcile.ReflectsDisabled`) the `disabled` assignment also sets the attribute to the empty string, or removes it, on every reconciliation. The model follows the corrected behaviour; see "## Findings".
- Dom.SyncAttributes: the attribute map ends equal to the new node's, and the write set is exactly the names whose values differ. The source matches this only up to the `disabled` attribute of a form control, which it rewrites to the empty string afterwards (`Reconcile.SyncedAsWritten`). Likewise `Dom.PatchNode`, `Dom.DiffAndPatch` and `Reconcile.PatchIdentical` report no write for a `Quiet` pair that the source writes to through that assignment; see "## Findings".
- Comment, processing-instruction and document-fragment nodes are not modelled: `Reconcile.Tree` and `Dom.Kind` have text and element nodes only. In the source, a pair of comment nodes passes every guard and is left untouched, and a document-fragment `VIEW` (nodeType 11) replaces the mount node at SRC/AZCore.js:174-176.
- Preserve CSS selectors are abstracted to a per-node `keep` flag that does not change. The source re-evaluates `matches(selector)` against the node's current attributes on every call (SRC/AZCore.js:161, 167, 221, 228), so a node that received `azcore` from a new tree is preserved by the next reconciliation; `Reconcile.Patch`'s `Preserved(r) == Preserved(o)` holds because the flag is fixed.
- State.Store.SetState: an updater function that mutates the state it is given, re-entrant listeners that subscribe or set state while being notified, and the key order and `undefined` handling of `JSON.stringify` are not modelled. Equality of maps stands for equality of the serialisations.
- State.ActionFor: action names inherited from `Object.prototype` (such as `toString`) and an action registered under a falsy value are not modelled. The call of the action and its `async` result are left out; only which function is called, or the error, is modelled.
- Functions and listeners are represented by numeric identities, so the model cannot call them.

## Findings

| source | as written | input that shows it | evidently intended | confidence | as-written member | corrected member |
|---|---|---|---|---|---|---|
| SRC/AZCore.js:209-243 | `onRENDERER` defaults `META` to `document.head` (SRC/AZCore.js:593-594), so the head is reconciled against itself; both snapshots are the same live list, and once a preserved child advances only `oldIndex` the cursors pair different children | a head holding a preserved `<meta azcore name="a">` followed by `<meta name="b">`: the second meta is patched against the first and ends up reading `azcore name="a"` | reconciling a node against itself leaves it as it is and writes nothing | not executed | Reconcile.SelfWalkCopiesPreserved | Dom.DiffAndPatch |
| SRC/AZCore.js:203-205 | `oldNode[attr] = newNode.hasAttribute(attr)` syncs `disabled` through the element's property; on a form control that property reflects the attribute, so `true` sets `disabled=""` again on every reconciliation | `<button disabled="disabled">` reconciled against an identical tree: the attribute becomes `disabled=""`, a mutation; with `disabled=""` it is still set again | the boolean properties are synced as live state, and a tree reconciled against one of the same shape sees no attribute mutation | not executed | Reconcile.DisabledButtonRewritten | Reconcile.PatchIdentical |
