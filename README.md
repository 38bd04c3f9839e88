# roko: a verified model of the virtual document, the differ, the patcher and the update loop

roko is an Elm-like UI framework for the browser. An application gives a
`view` function (model to virtual document), an `update` function (message and
model to a new model and a command) and an initial command. `start` renders
the first view into the page body. It then handles messages one at a time. For
each message it computes the new view, diffs it positionally against the
previous view, and patches the live document with the result. Click handlers
push messages onto a channel, and the command a turn returns may push one more.

This project models that core in Dafny:

- `RokoHtml`, `Elements`: the virtual document (`Html`, `Attribute`), its
  constructors and its `From` conversions, including the decimal text of a
  `usize`.
- `Host`: the part of the browser document the renderer and the patcher touch.
  It is a class `Element` with a tag, attributes, a click handler, a text, a
  list of child elements and a parent link. `Valid()` is the tree invariant and
  `Abs()` is the subtree as a value (`Tree`).
- `DomRender`: rendering, first as functions on `Tree` values (`Rendered`,
  `ChildOnto`, `AttrsOnto`), then as methods on live elements proved to have
  exactly that effect. It also holds the channel and the `on_mount` hook (class
  `Context`).
- `DomDiff`: the positional differ of roko-dom. It is written as functions, and
  the source's push/extend loops are methods proved to compute them.
- `DomPatch`: the patch script and the patcher. `Step` gives the effect of a
  patch on a subtree and on the target's standing in its parent. `Apply` and
  its arms mutate the live document and are proved to do what `Step` says.
- `DomApp`: commands and the update loop. `Turn`/`Run` are the loop on values,
  and `Start` runs it on the live document and is proved to follow `Run`.
- `LegacyDiff`, `LegacyRender`: the older differ and renderer of the
  roko-render crate.
- `SofiaPages`, `SofiaApp`: hash routing of the sofia site (pages, `update`,
  `init`), run through the update loop's `Replay`.
- `SurplusRemoves`: how `apply_children` drops trailing children, as written
  and as evidently intended (see Findings).
- `DomCounter`: a counter application run for one turn. It starts at 0, and its
  view is a `+` button sending `Increment` next to a paragraph showing the
  count. After one click the paragraph reads "1" and the button is updated in
  place, not replaced.
- `AttributeRoundTrip`: how `apply_attributes` removes and re-adds changed
  attributes, as written and as evidently intended (see Findings).

## Model

| member | source | states |
|---|---|---|
| RokoHtml.AttributeEqIsEquality | crates/roko-html/src/lib.rs:5-9 | the derived attribute comparison holds exactly when the two attributes are equal values |
| RokoHtml.NodeOf | crates/roko-html/src/lib.rs:27-37 | `node` builds a node without key that holds exactly the given tag, attributes and children |
| RokoHtml.KeyedNodeOf | crates/roko-dom/src/elements.rs:10 | the keyed `Html::node` keeps tag, key, attributes and children as given |
| RokoHtml.FromString | crates/roko-html/src/lib.rs:49-59 | a string converts to the text leaf holding that string |
| RokoHtml.FromUsize | crates/roko-html/src/lib.rs:43-47 | a `usize` converts to a text leaf whose text is a canonical decimal denoting that number |
| RokoHtml.TextOfString | crates/roko-html/src/lib.rs:39-41 | `text` of a string is its conversion, the text leaf of the string |
| RokoHtml.TextOfUsize | crates/roko-html/src/lib.rs:39-47 | `text` of a number is its conversion |
| RokoHtml.DecimalRoundTrip | crates/roko-html/src/lib.rs:45 | the decimal spelling of a number is canonical and reads back as that number |
| RokoHtml.DecimalInjective | crates/roko-html/src/lib.rs:45 | different numbers give different texts |
| Elements.P | crates/roko-dom/src/elements.rs:5-11 | a `p` node keeping key, attributes and children unchanged |
| Elements.Div | crates/roko-dom/src/elements.rs:13-19 | a `div` node keeping key, attributes and children unchanged |
| Elements.Button | crates/roko-dom/src/elements.rs:21-27 | a `button` node keeping key, attributes and children unchanged |
| Host.WithText | crates/roko-dom/src/render.rs:39 | setting the text content sets the text, removes every child and keeps tag, attributes and handler |
| Host.RemoveAt | crates/roko-dom/src/patch.rs:124 | the children after a removal: same order, the removed one left out |
| Host.Element.constructor | crates/roko-dom/src/render.rs:80 | `create_element` gives a fresh, valid element with no parent, no children and the given tag |
| Host.Blank | crates/roko-dom/src/render.rs:80 | the element `create_element` yields has the tag and no attribute, handler, text or child |
| Host.Element.SetTextContent | crates/roko-dom/src/render.rs:39 | the subtree becomes `WithText` of the old one; the former children are detached |
| Host.Element.AppendChild | crates/roko-dom/src/render.rs:88 | the child's subtree is appended after the existing children and the child points back to the parent |
| Host.Element.ReplaceWith | crates/roko-dom/src/patch.rs:113 | the new element takes the target's position in its parent; without a parent nothing happens |
| Host.Element.Remove | crates/roko-dom/src/patch.rs:124 | the target leaves its parent's children, the others keep their order; without a parent nothing happens |
| Host.Element.SetAttribute | crates/roko-dom/src/render.rs:72 | the named attribute gets the value and nothing else changes |
| Host.Element.SetOnclick | crates/roko-dom/src/render.rs:65-68 | the click handler becomes the given one and nothing else changes |
| DomRender.Context.constructor | crates/roko-dom/src/lib.rs:95 | the channel starts empty and no hook has been called |
| DomRender.Context.CallOnMount | crates/roko-dom/src/patch.rs:121-123 | the hook call is recorded with its key, after earlier calls |
| DomRender.Context.Receive | crates/roko-dom/src/lib.rs:109 | the oldest queued message is taken off the channel |
| DomRender.Context.Send | crates/roko-dom/src/lib.rs:106 | a message goes to the back of the channel |
| DomRender.AttrOnto | crates/roko-dom/src/render.rs:50-73 | `OnClick` sets the handler, `Custom` sets one attribute; tag, text and children are untouched |
| DomRender.AttrsOnto | crates/roko-dom/src/render.rs:82-84 | rendering attributes in order touches neither tag, text nor children |
| DomRender.Rendered | crates/roko-dom/src/render.rs:78-94 | the element made for a node has the node's tag |
| DomRender.ChildrenOnto | crates/roko-dom/src/render.rs:86-90 | rendering children keeps tag, attributes and handler |
| DomRender.ChildOnto | crates/roko-dom/src/render.rs:86-90 | a text child overwrites the text and drops the children; a node child appends one element and keeps the earlier ones |
| DomRender.ChildrenOntoCount | crates/roko-dom/src/render.rs:86-90 | node children give one appended element each, the rendering of that child, in order |
| DomRender.RenderString | crates/roko-dom/src/render.rs:33-42 | sets the container's text and yields no element |
| DomRender.RenderAttribute | crates/roko-dom/src/render.rs:44-76 | the container changes exactly as `AttrOnto` says and no element is yielded |
| DomRender.Click | crates/roko-dom/src/render.rs:54-61 | firing a handler pushes its message onto the channel, if there is one |
| DomRender.RenderNode | crates/roko-dom/src/render.rs:78-94 | a fresh, valid, parentless element whose subtree is `Rendered` of the node |
| DomRender.RenderAttributes | crates/roko-dom/src/render.rs:82-84 | the element changes exactly as `AttrsOnto` says |
| DomRender.RenderChildren | crates/roko-dom/src/render.rs:86-90 | the element changes exactly as `ChildrenOnto` says and grows only by fresh elements |
| DomRender.Render | crates/roko-dom/src/render.rs:96-107 | a node yields its fresh element and leaves the container alone; a text sets the container's text |
| DomPatch.IsNothing | crates/roko-dom/src/patch.rs:40-44 | `is_nothing` holds exactly for `Nothing` |
| DomPatch.AttrSteps | crates/roko-dom/src/patch.rs:75-100 | attribute patches change neither tag, text nor children |
| DomPatch.AttrStepEffect | crates/roko-dom/src/patch.rs:81-97 | one attribute patch keeps tag, text and children. Adding renders the attribute as the renderer does. Removing `OnClick` clears the click handler and changes nothing else. Removing `Custom(n, _)` sets `n` to "" and leaves every other name as it was. Removing `OnMount` changes nothing. Removing `OnUnmount(m)` sends exactly `m`, and no other patch sends anything |
| DomPatch.Step | crates/roko-dom/src/patch.rs:104-128 | a target already replaced or removed keeps that standing; only an attached target can stay attached |
| DomPatch.ChildrenSteps | crates/roko-dom/src/patch.rs:58-72 | as `Step`, for the child patches of an `Update` sent to live indices |
| DomPatch.StepSlotBlind | crates/roko-dom/src/patch.rs:104-128 | the target's standing never influences the subtree, the messages or the hook calls |
| DomPatch.ChildrenStepsSlotBlind | crates/roko-dom/src/patch.rs:58-72 | the same for child patch lists |
| DomPatch.QuietStepIsIdentity | crates/roko-dom/src/patch.rs:116-126 | `Nothing`, and `Update`s made only of those, change nothing, send nothing, call no hook |
| DomPatch.QuietChildrenStepsAreIdentity | crates/roko-dom/src/patch.rs:58-72 | a list of such patches changes nothing |
| DomPatch.ChildrenStepsThen | crates/roko-dom/src/patch.rs:65-71 | one iteration of the child loop: patch k goes to live child k, or to the parent when there is none |
| DomPatch.ResettleShape | crates/roko-dom/src/patch.rs:65-67 | after patching live child k, the children before k stay; a detached child leaves and the later ones move up by one; an attached child becomes its patched subtree and a replaced one its newcomer |
| DomPatch.Apply | crates/roko-dom/src/patch.rs:104-128 | patching the live element has exactly the effect `Step` gives: subtree, standing, channel and hook calls |
| DomPatch.ApplyAdd | crates/roko-dom/src/patch.rs:106-110 | the `Add` arm does what `Step` says |
| DomPatch.ApplyReplace | crates/roko-dom/src/patch.rs:111-115 | the `Replace` arm does what `Step` says |
| DomPatch.ApplyUpdate | crates/roko-dom/src/patch.rs:116-119 | the `Update` arm does what `Step` says |
| DomPatch.ApplyRemove | crates/roko-dom/src/patch.rs:120-125 | the `Remove` arm does what `Step` says |
| DomPatch.ApplyChildren | crates/roko-dom/src/patch.rs:58-72 | `apply_children` has exactly the effect of `ChildrenSteps` |
| DomPatch.ApplyChildStep | crates/roko-dom/src/patch.rs:65-71 | one iteration of `apply_children` on the live document |
| DomPatch.ApplyToChild | crates/roko-dom/src/patch.rs:66-67 | patching live child i resettles it in the parent as its outcome says |
| DomPatch.ApplyAttributes | crates/roko-dom/src/patch.rs:75-100 | the element and the channel change exactly as `AttrSteps` says |
| DomDiff.AddEach | crates/roko-dom/src/diff.rs:33 | one `Add` per surplus new child, in order |
| DomDiff.RemoveEach | crates/roko-dom/src/diff.rs:34 | one `Remove` per surplus old child, carrying its key |
| DomDiff.Diff | crates/roko-dom/src/diff.rs:71-91 | the diff of two trees is never a bare `Add` or `Remove`; a `Replace` carries the new tree; an `Update` comes only from two nodes with the same tag |
| DomDiff.DiffChildren | crates/roko-dom/src/diff.rs:18-37 | one child patch per position of the longer child list |
| DomDiff.ChangedPairs | crates/roko-dom/src/diff.rs:54-59 | the zip gives whole pairs, at most one per zipped position: a `Remove` at each even place, an `Add` at each odd one |
| DomDiff.DiffAttrs | crates/roko-dom/src/diff.rs:43-65 | at least one patch per surplus attribute, and at most one per attribute of either list |
| DomDiff.CollectChildPatches | crates/roko-dom/src/diff.rs:18-37 | the push/extend loops compute `DiffChildren` |
| DomDiff.CollectAttrPatches | crates/roko-dom/src/diff.rs:43-65 | the push/extend loops compute `DiffAttrs` |
| DomDiff.DiffChildrenAt | crates/roko-dom/src/diff.rs:18-37 | the child diff has one patch per position of the longer list: the pair's diff, then `Add`s or `Remove`s |
| DomDiff.SurplusIsOneSided | crates/roko-dom/src/diff.rs:33-34 | a child patch list never holds both an `Add` and a `Remove` |
| DomDiff.ChangedPairsEmptyIff | crates/roko-dom/src/diff.rs:54-59 | the zipped attributes give no patch exactly when they are equal |
| DomDiff.DiffAttrsEmptyIff | crates/roko-dom/src/diff.rs:43-65 | the attribute diff is empty exactly when the two lists are equal |
| DomDiff.ChangedPairsFrom | crates/roko-dom/src/diff.rs:54-59 | zipped patches remove only old attributes and add only new ones |
| DomDiff.DiffAttrsFrom | crates/roko-dom/src/diff.rs:43-65 | the attribute diff removes only old attributes and adds only new ones |
| DomDiff.DiffReplaceIff | crates/roko-dom/src/diff.rs:72-79 | `Replace` exactly on a kind mismatch, a different text or a different tag, and it carries the new tree |
| DomDiff.DiffNothingIff | crates/roko-dom/src/diff.rs:71-91 | `Nothing` exactly for equal texts, or same-tag nodes that both have no children and have equal attributes (keys are not compared) |
| DomDiff.DiffSelfIsQuiet | crates/roko-dom/src/diff.rs:71-91 | a tree diffed against itself gives a patch that changes nothing |
| DomDiff.InsertAtFrontMisaligns | crates/roko-dom/src/diff.rs:29-33 | inserting a child in front is not detected: each old child is diffed against the new child at its position and the last is added again |
| DomDiff.DiffApplicable | crates/roko-dom/src/diff.rs:71-91 | the diff of two renderable trees adds and replaces only renderable subtrees and touches only attributes the patcher handles |
| DomDiff.PatchOfSelfIsIdentity | crates/roko-dom/src/patch.rs:104-128 | patching with the diff of a tree against itself changes nothing, sends nothing, calls no hook |
| DomApp.CmdNew | crates/roko-dom/src/lib.rs:35-40 | `Cmd::new` keeps the model and the future |
| DomApp.CmdNone | crates/roko-dom/src/lib.rs:42-47 | `Cmd::none` keeps the model and yields no message |
| DomApp.PollUnit | crates/roko-dom/src/lib.rs:50-67 | the unit command is ready exactly when its future is ready with a message |
| DomApp.PollOfNoneIsPending | crates/roko-dom/src/lib.rs:42-67 | `Cmd::none` never reports ready |
| DomApp.Enqueued | crates/roko-dom/src/lib.rs:105-107 | an awaited command queues its message, if it has one |
| DomApp.Initial | crates/roko-dom/src/lib.rs:93-107 | the loop starts on the initial model, its rendered view and the initial message |
| DomApp.Turn | crates/roko-dom/src/lib.rs:109-125 | a turn handles the oldest message, and the stored view is the view of the updated model |
| DomApp.Run | crates/roko-dom/src/lib.rs:109-125 | every state the loop reaches has a renderable view, and when the stored view was the view of the model it stays so (lib.rs:114-118) |
| DomApp.RunTakesTurn | crates/roko-dom/src/lib.rs:109-124 | with budget left and a message queued, the loop takes one turn and goes on with one turn fewer |
| DomApp.ReplayTwo | crates/roko-dom/src/lib.rs:110-112 | handling two messages updates with the first, then with the second |
| DomApp.TurnIsFifo | crates/roko-dom/src/lib.rs:109-125 | a turn only appends to the handled-then-queued log |
| DomApp.RunIsFifo | crates/roko-dom/src/lib.rs:109-125 | messages are handled first in, first out, and the loop stops only when the queue is empty or the budget is spent |
| DomApp.RunReplays | crates/roko-dom/src/lib.rs:109-125 | handled messages stay handled, and the model is the starting model updated with every newly handled message, in order |
| DomApp.InitialMessageFirst | crates/roko-dom/src/lib.rs:105-110 | the initial command's message is the first message handled |
| DomApp.Start | crates/roko-dom/src/lib.rs:73-129 | `start` on the live document ends in the state `Run` gives: model, view, root subtree, channel, hook calls |
| DomApp.Serve | crates/roko-dom/src/lib.rs:109-125 | the `while let` loop takes the turns `Run` takes |
| DomApp.TakeTurn | crates/roko-dom/src/lib.rs:110-124 | one iteration of the loop on the live document does what `Turn` says |
| DomCounter.RenderedCounter | crates/roko-dom/src/render.rs:78-94 | the counter's view renders to a bare `div` whose two child elements are the button, with its handler and label, and the paragraph, with the count as its text |
| DomCounter.CounterDiff | crates/roko-dom/src/diff.rs:71-91 | consecutive counter views diff to an `Update` of the `div` holding a quiet `Update` of the button, so it is not replaced, and an `Update` of the paragraph replacing its text by the new count, with no attribute patch |
| DomCounter.ParagraphStep | crates/roko-dom/src/patch.rs:104-128 | the paragraph has no child element, so the `Replace` by a text goes to the paragraph itself and sets its text to the new count |
| DomCounter.CounterStep | crates/roko-dom/src/patch.rs:104-128 | patching the rendering of the view of n with that diff gives the rendering of the view of n + 1: the root stays attached, the button stays in its place unchanged, nothing is sent and no hook is called |
| DomCounter.IncrementTurn | crates/roko-dom/src/lib.rs:109-125 | one turn on `Increment` adds one to the count, makes the root the rendering of the new view in place, handles the message, adds nothing to the queue and calls no hook |
| DomCounter.FirstClick | crates/roko-dom/src/lib.rs:109-125 | from the counter showing 0 with its root in the body, one click leaves the paragraph reading "1", the button as rendered at the start, the root in the body, and nothing queued |
| DomCounter.CounterStartsAtZero | crates/roko-dom/src/lib.rs:93-107 | the loop's initial state for the counter at 0 shows 0, holds the rendering of its view in the body, and has handled nothing |
| LegacyDiff.CollectChildPatches | crates/roko-render/src/diff.rs:14-33 | the take/zip/extend loops compute `DiffChildren` |
| LegacyDiff.CollectAttrPatches | crates/roko-render/src/diff.rs:39-61 | the take/zip/extend loops compute `DiffAttrs` |
| LegacyDiff.Diff | crates/roko-render/src/diff.rs:67-87 | never a bare `Add` or `Remove`; a `Replace` carries the new tree; an `Update` comes only from two nodes with the same tag |
| LegacyDiff.ZipFrom | crates/roko-render/src/diff.rs:25-27 | one diff per pair left after the take, and none once the take has used up the shorter list |
| LegacyDiff.DiffChildren | crates/roko-render/src/diff.rs:14-33 | twice the shorter length: an `Add` at each of the first half of the places, a `Remove` at each of the rest |
| LegacyDiff.DiffAttrs | crates/roko-render/src/diff.rs:39-61 | twice the shorter length: `Add`s in the first half of the places, `Remove`s in the rest |
| LegacyDiff.ZipDiffs | crates/roko-render/src/diff.rs:25-27 | the zip loop diffs each pair left after the take, in order |
| LegacyDiff.ZipChangedAttrs | crates/roko-render/src/diff.rs:50-55 | a differing pair gives `Remove(old)` then `Add(new)` |
| LegacyDiff.ExtendAttrs | crates/roko-render/src/diff.rs:57-58 | `extend` appends an `Add` or a `Remove` of each taken attribute, in order, after the patches already there |
| LegacyDiff.DiffChildrenShape | crates/roko-render/src/diff.rs:14-33 | the child diff adds every new child below the shorter length and removes as many, never comparing two children |
| LegacyDiff.DiffAttrsShape | crates/roko-render/src/diff.rs:39-61 | the attribute diff adds the leading new attributes and removes the leading old ones, equal or not |
| LegacyDiff.DiffReplaceIff | crates/roko-render/src/diff.rs:67-75 | `Replace` exactly on a kind mismatch, a different text or a different tag, carrying the new tree |
| LegacyDiff.SameTagDiff | crates/roko-render/src/diff.rs:76-84 | same-tag nodes give `Nothing` exactly when a child list and an attribute list are empty, otherwise only adds and removes |
| LegacyDiff.SelfDiffRebuilds | crates/roko-render/src/diff.rs:14-33 | a node with children diffed against itself adds and removes every child, where the roko-dom differ finds nothing to change |
| LegacyDiff.ChangedTextChild | crates/roko-render/src/diff.rs:21-30 | one changed text child gives an `Add` and a `Remove`, where the roko-dom differ replaces it |
| LegacyRender.AsCustom | crates/roko-render/src/render.rs:46-78 | `Class`/`Style` set the "class"/"style" attribute; `OnClick` is unchanged |
| LegacyRender.AsCustomAll | crates/roko-render/src/render.rs:87-89 | each attribute translated in place |
| LegacyRender.Translate | crates/roko-render/src/render.rs:83-99 | same tag, key and shape, renderable by the roko-dom renderer |
| LegacyRender.TranslateAll | crates/roko-render/src/render.rs:91-95 | each child translated in place |
| LegacyRender.RenderString | crates/roko-render/src/render.rs:29-38 | sets the container's text and yields no element |
| LegacyRender.RenderAttribute | crates/roko-render/src/render.rs:40-81 | the container changes as the roko-dom rendering of the translated attribute |
| LegacyRender.RenderNode | crates/roko-render/src/render.rs:83-99 | a fresh element whose subtree is the roko-dom rendering of the translated node |
| LegacyRender.RenderAttributes | crates/roko-render/src/render.rs:87-89 | the element changes as the translated attributes say |
| LegacyRender.RenderChildren | crates/roko-render/src/render.rs:91-95 | the element changes as the translated children say |
| LegacyRender.Render | crates/roko-render/src/render.rs:101-112 | a node yields its fresh element, a text sets the container's text |
| LegacyRender.OnlyClassAndStyle | crates/roko-render/src/render.rs:76-77 | rendering attributes adds no attribute name but "class" and "style" |
| LegacyRender.LastClassWins | crates/roko-render/src/render.rs:87-89 | the last `Class` in the list decides the "class" attribute |
| SofiaPages.FromHash | crates/roko-sofia-client/src/pages/mod.rs:24-32 | home exactly for the empty, "#" and unknown hashes; any other page is the one whose hash was read |
| SofiaPages.ToHash | crates/roko-sofia-client/src/pages/mod.rs:34-41 | every hash starts with '#' |
| SofiaPages.PageView | crates/roko-sofia-client/src/pages/mod.rs:66-78 | the view shown is the one at the page's position in `PAGES` |
| SofiaPages.IndexOfPage | crates/roko-sofia-client/src/pages/mod.rs:64 | each page has a position in `PAGES` |
| SofiaPages.HashRoundTrip | crates/roko-sofia-client/src/pages/mod.rs:24-41 | reading a page's own hash gives the page back |
| SofiaPages.ToHashInjective | crates/roko-sofia-client/src/pages/mod.rs:34-41 | different pages have different hashes |
| SofiaPages.NormaliseIdempotent | crates/roko-sofia-client/src/pages/mod.rs:24-41 | reading a hash and writing the page back is idempotent |
| SofiaPages.NormalFormIff | crates/roko-sofia-client/src/pages/mod.rs:24-41 | a hash survives normalising exactly when it is a page's hash |
| SofiaPages.HashIsDisplayedName | crates/roko-sofia-client/src/pages/mod.rs:34-62 | apart from home, a page's hash is "#" and its displayed name |
| SofiaPages.ToTitle | crates/roko-sofia-client/src/pages/mod.rs:43-50 | a title is as long as the displayed name plus " \| Sofia" and ends in " \| Sofia" |
| SofiaPages.TitleNamesPage | crates/roko-sofia-client/src/pages/mod.rs:43-62 | a title begins with the page's displayed name, its first letter in upper case |
| SofiaPages.Display | crates/roko-sofia-client/src/pages/mod.rs:53-62 | the displayed name is non-empty and lower-case; apart from home, the page's hash is "#" followed by it |
| SofiaPages.TitlesAndNamesDistinct | crates/roko-sofia-client/src/pages/mod.rs:43-62 | different pages have different titles and displayed names |
| SofiaPages.PagesListEachOnce | crates/roko-sofia-client/src/pages/mod.rs:64 | `PAGES` lists every page once, in the order Home, Blog, Projects, Resume |
| SofiaApp.CmdMessage | crates/roko-sofia-client/src/lib.rs:49 | `Cmd::message` keeps the model and yields the message |
| SofiaApp.NavbarUpdate | crates/roko-sofia-client/src/components/navbar.rs:28-30 | the navigation update moves to the page, keeps the projects and yields nothing |
| SofiaApp.InitApp | crates/roko-sofia-client/src/lib.rs:70-97 | `init` is on the page the hash names, lists Vulpi, Nuko and Roko, and yields `Init` |
| SofiaApp.Update | crates/roko-sofia-client/src/lib.rs:45-64 | a hash change asks for the page the hash names and `Init` for the current page, both leaving the state alone; a page change yields nothing, moves the model to the page keeping the projects, and sets hash and title in line |
| SofiaApp.HashChangeRoutes | crates/roko-sofia-client/src/lib.rs:48-62 | a hash change and the page change it asks for land on the page the hash names, with hash and title in line |
| SofiaApp.StartupRoutes | crates/roko-sofia-client/src/lib.rs:53-97 | starting up on a hash lands on the page it names, with the three projects, hash and title in line |
| SofiaApp.EchoIsFixedPoint | crates/roko-sofia-client/src/lib.rs:48-62 | the hash change that writing the hash provokes leaves an in-line state as it was |
| SofiaApp.UnknownHashGoesHome | crates/roko-sofia-client/src/lib.rs:48-62 | an unknown hash sends the site home and normalises the hash to "#" |
| SurplusRemoves.FixedStep | crates/roko-dom/src/patch.rs:104-128 | corrected `apply`: a replaced or removed target keeps that standing |
| SurplusRemoves.FixedChildrenSteps | crates/roko-dom/src/patch.rs:58-72 | corrected `apply_children`, patch i sent to index i minus the children removed so far |
| SurplusRemoves.RemovedKeys | crates/roko-dom/src/patch.rs:120-123 | the hook hears of at most one key per patch, and of none without a hook |
| SurplusRemoves.QuietFixedStepIsIdentity | crates/roko-dom/src/patch.rs:116-126 | under the corrected loop, quiet patches change nothing |
| SurplusRemoves.QuietFixedChildrenStepsAreIdentity | crates/roko-dom/src/patch.rs:58-72 | under the corrected loop, a list of quiet patches changes nothing |
| SurplusRemoves.FixedRemovalsFrom | crates/roko-dom/src/patch.rs:58-72 | under the corrected loop, trailing removals drop exactly the trailing children |
| SurplusRemoves.FixedQuietPrefix | crates/roko-dom/src/patch.rs:58-72 | under the corrected loop, the quiet leading patches leave the children alone |
| SurplusRemoves.FixedTruncation | crates/roko-dom/src/patch.rs:58-72 | under the corrected loop, a truncating patch list keeps the first m children and drops the rest |
| SurplusRemoves.RemovalsRunPastEnd | crates/roko-dom/src/patch.rs:65-71 | as written, enough trailing removals run past the live children and detach the parent |
| SurplusRemoves.QuietPrefix | crates/roko-dom/src/patch.rs:65-71 | as written, the quiet leading patches leave the children alone |
| SurplusRemoves.AsWrittenTruncationDetaches | crates/roko-dom/src/patch.rs:65-71 | as written, a truncating list with two or more removals detaches the parent |
| SurplusRemoves.RenderedEach | crates/roko-dom/src/render.rs:86-90 | the rendered element of each node child, in order |
| SurplusRemoves.NodeChildrenOnto | crates/roko-dom/src/render.rs:86-90 | rendering node children only appends their elements |
| SurplusRemoves.Truncated | crates/roko-dom/src/diff.rs:18-37 | the same node keeping only its first m children |
| SurplusRemoves.DiffOfTruncation | crates/roko-dom/src/diff.rs:18-37 | dropping trailing children diffs to quiet patches then one `Remove` per dropped child |
| SurplusRemoves.RenderedTruncated | crates/roko-dom/src/render.rs:78-94 | the rendered truncated node is the rendered node keeping its first m elements |
| SurplusRemoves.FixedTruncationRoundTrip | crates/roko-dom/src/patch.rs:58-72 | corrected: patching the rendered old document gives the rendered new one, in place, with each removed key reported |
| SurplusRemoves.AsWrittenTruncationFails | crates/roko-dom/src/patch.rs:65-71 | as written: dropping two or more children detaches the rendered old document |
| SurplusRemoves.ThreeParagraphsDiff | crates/roko-dom/src/diff.rs:18-37 | three empty paragraphs cut to one diff to `Nothing` and two `Remove`s |
| SurplusRemoves.ThreeParagraphsToOne | crates/roko-dom/src/patch.rs:65-71 | on that input the patcher as written detaches the element; the corrected one keeps it attached |
| AttributeRoundTrip.NameSetMembers | crates/roko-dom/src/render.rs:72 | the names of a list are exactly those its named attributes carry |
| AttributeRoundTrip.NamedAttrsOnto | crates/roko-dom/src/render.rs:82-84 | rendering distinct named attributes sets exactly those names, each to its value, and keeps the click handler |
| AttributeRoundTrip.RemovedNamesMembers | crates/roko-dom/src/patch.rs:87 | a name is removed exactly when a removal of a named attribute carries it |
| AttributeRoundTrip.AddedNamesMembers | crates/roko-dom/src/patch.rs:82-84 | a name is added exactly when an addition of a named attribute carries it |
| AttributeRoundTrip.Removals | crates/roko-dom/src/patch.rs:85-97 | corrected removals: the element loses exactly the removed names and keeps tag, text and children; when every removal is of a named attribute, the handler stays and nothing is sent |
| AttributeRoundTrip.Additions | crates/roko-dom/src/patch.rs:82-84 | the additions keep tag, text and children, and keep the handler when only named attributes are added |
| AttributeRoundTrip.FixedAttrSteps | crates/roko-dom/src/patch.rs:75-100 | corrected `apply_attributes` (every removal, then every addition): tag, text and children stay, and when every removal is of a named attribute nothing is sent |
| AttributeRoundTrip.AdditionsAgree | crates/roko-dom/src/patch.rs:82-84 | additions that agree with a target set each added name to its target value and leave the other names alone |
| AttributeRoundTrip.ChangedPairsCover | crates/roko-dom/src/diff.rs:54-59 | every differing zipped pair is removed and added |
| AttributeRoundTrip.ChangedPairsRemoveOnlyChanged | crates/roko-dom/src/diff.rs:54-59 | the zip removes only the old attribute of a differing pair |
| AttributeRoundTrip.DiffAttrsCover | crates/roko-dom/src/diff.rs:43-65 | the attribute diff removes every old attribute without an equal one at its position and adds every new one without an equal one at its position |
| AttributeRoundTrip.DiffAttrsRemoveOnlyGone | crates/roko-dom/src/diff.rs:43-65 | the attribute diff removes only old attributes without an equal one at their position |
| AttributeRoundTrip.DiffOfNamedIsNamed | crates/roko-dom/src/diff.rs:43-65 | between distinct named lists the diff removes and adds named attributes only, and adds only attributes of the new list |
| AttributeRoundTrip.KeptAttributeStays | crates/roko-dom/src/diff.rs:54-62 | an old attribute whose name is not removed is at the same position, unchanged, in the new list |
| AttributeRoundTrip.KeptNamesAgree | crates/roko-dom/src/diff.rs:43-65 | after the corrected removals, every name left has the value the new rendering gives it |
| AttributeRoundTrip.NextNamesCovered | crates/roko-dom/src/diff.rs:43-65 | every name of the new list is either added by the diff or kept with its value |
| AttributeRoundTrip.FixedAttributesRoundTrip | crates/roko-dom/src/patch.rs:75-100 | corrected: patching the rendering of the old attributes with their diff gives exactly the rendering of the new ones, and sends nothing |
| AttributeRoundTrip.AttributesOnlyUpdate | crates/roko-dom/src/patch.rs:116-119 | an update without child patches only patches its target's attributes |
| AttributeRoundTrip.RenderedLeaf | crates/roko-dom/src/render.rs:78-94 | a node without children renders to its attributes on a blank element |
| AttributeRoundTrip.RemovedAttributeLeftEmpty | crates/roko-dom/src/patch.rs:87 | as written: removing the only attribute leaves `class=""` where the new rendering has no attribute |
| AttributeRoundTrip.SwapSteps | crates/roko-dom/src/patch.rs:80-99 | as written: applying remove a, add b, remove b, add a to a="1", b="2" leaves b empty |
| AttributeRoundTrip.SwapDiff | crates/roko-dom/src/diff.rs:54-59 | two swapped named attributes diff to remove a, add b, remove b, add a |
| AttributeRoundTrip.SwappedAttributesLoseOne | crates/roko-dom/src/patch.rs:80-99 | as written: swapping two named attributes loses the value of one of them |
| AttributeRoundTrip.RenderedWithOneChild | crates/roko-dom/src/render.rs:78-94 | a node with one element child and no attributes renders to a blank element holding that child |
| AttributeRoundTrip.TextReplaceDiff | crates/roko-dom/src/diff.rs:71-91 | an element child replaced by a text child diffs to one `Replace` child patch |
| AttributeRoundTrip.TextReplacingElementLandsInChild | crates/roko-dom/src/patch.rs:111-115 | as written: the `Replace` by a text goes to the element child and sets that child's text, where the new rendering sets the parent's text |

## Left out

- The browser is reduced to what the renderer and the patcher touch. Window/document lookups and their `expect`s, `unwrap`s on DOM calls, `Closure` and `forget`, and the executor (`block_on`) are not modelled.
- Futures and the mpsc channel: a command is modelled as already resolved (`Cmd(model, future: Option<M>)`), and the channel as a first-in, first-out sequence. Clicks that arrive between turns are not modelled, except that `DomRender.Click` pushes onto the channel.
- DomApp.Start, DomApp.Run: the source waits for messages forever. The model takes at most `fuel` turns and stops when the queue is empty.
- The `on_mount` hook is recorded as the keys it receives. Its element argument is not modelled.
- DomRender.Render, DomPatch.Apply: the roko-dom renderer has arms only for `OnClick` and `Custom`. The patcher removes only `OnClick`, `Custom`, `OnMount` and `OnUnmount`. Both therefore require documents made of those attributes (`RenderableHtml`, `Applicable`).
- The snapshots disagree with one another, and the model takes the variant that type-checks:
  - roko-dom's `render` takes an `UnboundedSender` (crates/roko-dom/src/render.rs:26-30), and crates/roko-dom/src/lib.rs:100 calls it with one. But crates/roko-dom/src/patch.rs:83, 107 and 112 call `render` with a `Context`. patch.rs:13 imports `Context` from render.rs, which does not define it.
  - crates/roko-dom/src/lib.rs:120 calls `apply` with a sender, while `apply` takes `&mut Context` (crates/roko-dom/src/patch.rs:104).
  - The model uses the `Context` class (channel plus `on_mount` hook) for rendering and patching alike.
  - `Cmd::message` is used by the sofia site but not defined in crates/roko-dom/src/lib.rs. It is modelled as `SofiaApp.CmdMessage`.
  - sofia's `start` call passes six arguments where roko-dom's `start` takes three. The subscription, the hook and the last argument are left out.
  - `|_| Patch::Remove` in crates/roko-dom/src/diff.rs:34 does not fit `Remove(Option<String>)`. It is modelled as `Remove` carrying the removed child's key (`None` for text).
  - `Html::node` with an id is called by elements.rs, but roko-html only has a key-less `node`. Nodes carry an optional key.
  - `Attribute` is the union of the variants the crates use.
- LegacyRender.RenderAttribute: the click handler's failed send is logged to the console and dropped (crates/roko-render/src/render.rs:58-60), where the model's `Click` always queues the message. The console logging at render.rs:48, 53, 62 and 64 is not modelled.
- The round trip "patching the rendering of A with the diff of A and B gives the rendering of B" is proved for three kinds of documents only:
  - A equal to B (`DomDiff.PatchOfSelfIsIdentity`);
  - B being A without some trailing element children, under the corrected child loop (`SurplusRemoves.FixedTruncationRoundTrip`);
  - same-tag nodes whose attributes are named and distinct, rendered onto an element without attributes, under the corrected attribute patcher (`AttributeRoundTrip.FixedAttributesRoundTrip`).
- Other documents are not covered. `AttributeRoundTrip.TextReplacingElementLandsInChild` shows that replacing an element child by a text child does not round-trip. Text children are not modelled as live children, so no corrected semantics is given for that case.
- DomCounter.CounterStep: that the button keeps its element is stated on values: its child patch leaves it attached and unchanged, never swapped for a new rendering. That the live `Element` object is the same one is not stated on the heap, because `DomPatch.Apply` relates the heap to `Step` through `Abs()` only.
- The sofia site's views (home, blog, projects, resume, navbar markup, home cards) are not modelled. `SofiaPages.PageView` takes the page views as parameters.
- crates/roko-dom/src/events.rs (`change_hash`, `change_title`, `get_page_hash`, `on_hash_change`): the location hash and the document title are modelled as the `Browser` part of `SofiaApp.State`. The hash-change subscription is modelled by feeding `HashChange` messages.
- crates/roko-render/src/patch.rs and app.rs are unfinished (`todo!()`, an empty `apply_children`) and are not part of this model. Only the older differ's `Patch` shape is taken from them.
- The `response!` macro, the `Debug` implementations, `none()` and the `html!` macro crate are not modelled.
- `DomPatch.Apply` and `DomApp.Start` keep the as-written `apply_children` (see Findings). The corrected semantics is stated on values only (`SurplusRemoves.FixedStep`).
- Text children do not appear in the live `children()` list. A node that mixes text and element children therefore gets its child patches at misaligned indices. The model follows the code here (text children overwrite `textContent`), and no finding is claimed for it.

## Findings

| source | as written | input that shows it | evidently intended | confidence | as-written member | corrected member |
|---|---|---|---|---|---|---|
| crates/roko-dom/src/patch.rs:65-71 | `apply_children` sends patch i to the live child at index i. Each surplus `Remove` shrinks that list, so the next `Remove` skips a child. Once the index passes the end, the `Remove` falls back to the parent and detaches it. | a `div` with three empty `p` children re-rendered as a `div` with one `p`: the diff is `Update([Nothing, Remove(None), Remove(None)], [])`, and applying it removes the second paragraph and then the `div` itself | the surplus children are dropped and the parent stays in place | not executed | SurplusRemoves.ThreeParagraphsToOne | SurplusRemoves.FixedTruncationRoundTrip |
| crates/roko-dom/src/patch.rs:87 | removing a named attribute sets it to the empty string instead of removing it | `div` with `class="x"` re-rendered as a `div` without attributes: the patched element has `class=""`, the rendering of the new document has no attribute | the attribute is removed from the element | not executed | AttributeRoundTrip.RemovedAttributeLeftEmpty | AttributeRoundTrip.FixedAttributesRoundTrip |
| crates/roko-dom/src/diff.rs:54-59 | each differing pair gives `Remove(old)` then `Add(new)`, and crates/roko-dom/src/patch.rs:80-99 applies them in that order. A later removal can clear a value an earlier addition set. | `div` with a="1", b="2" re-rendered with the two attributes swapped: the patches are remove a, add b, remove b, add a, and the patched element has a="1", b="" | every attribute of the new document keeps its value | not executed | AttributeRoundTrip.SwappedAttributesLoseOne | AttributeRoundTrip.FixedAttributesRoundTrip |
| crates/roko-render/src/diff.rs:21-27 | the first `min(len)` elements are taken off both lists before the zip. One remainder is always empty, so no pair is ever compared. | a node with one text child "a" diffed against the same node with text "b": the result is `Update([Add(Text("b")), Remove], [])` instead of replacing the text | the differ pairs the leading elements, as the roko-dom differ does | not executed | LegacyDiff.ChangedTextChild | DomDiff.DiffChildrenAt |
