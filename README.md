# rt-scripts-optimizer, modelled in Dafny

rt-scripts-optimizer is a WordPress plugin that keeps scripts and
stylesheets off the critical path of a page.

On the server it runs a set of WordPress filters:

- `rt_scripts_handler` replaces each script tag that is not excluded with an
  inert `<script type="text/rtscript" ...>` marker. The exclusions are a
  request-wide list, `$skip_js`, that every call updates.
- `load_async_styles` comments out, preloads or defers a stylesheet tag,
  depending on the configured handle lists.
- `skip_css_concatination` refuses concatenation for configured handles.
- `disable_emojis_remove_dns_prefetch` drops the emoji CDN from the
  dns-prefetch hints.
- `rt_scripts_optimizer_iframe_lazy_loading` renames an iframe's `src` to
  `data-src`.
- `rt_scripts_optimizer_modify_embeds` makes the scripts of Twitter and
  Reddit embeds inert.

In the browser, footer JavaScript brings the deferred parts back:

- A gate waits for the first user interaction. It then collects the markers
  (`n`), promotes them one by one (`rti`) and runs them in order (`c`).
  After the last one it replays the page lifecycle events (`u`).
- A second gate hands the on-event stylesheets to `loadCSS`.
- Two IntersectionObservers give iframes their `src` and copy embed scripts
  into runnable ones when they scroll into view.

The project has nine files:

| file | what it holds |
|---|---|
| `wrappers.dfy` | The `Option` type. |
| `php_strings.dfy` | The PHP built-ins the filters use: `explode`, `trim`, `strpos`, `str_replace`, `array_unique`, `array_search`, `unset`. |
| `wordpress.dfy` | The request context: stored options, AMP, the plugin's disable filter, `is_single`, `is_admin`. `esc_url` and the emoji URL filter are function-valued inputs. |
| `scripts_handler.dfy` | `rt_scripts_handler` as a class `TagFilter` whose field is `$skip_js`, with the value-level specification `HandleSpec`. |
| `async_styles.dfy` | `load_async_styles` and the markup of each mode. |
| `filters.dfy` | The concatenation skip (a loop), the dns-prefetch filter, the iframe rewrite and the embed rewrite. |
| `script_activation.dfy` | The script gate, runner, promoter, collector and replay. There is a class `FooterScripts` over the page state, and functions `InteractSpec`, `RunSpec`, `RtiSpec`, `ContinueSpec`, `SettleSpec` that specify its methods. |
| `style_activation.dfy` | The stylesheet gate: a class `StyleGate` and its specification. |
| `lazy_loaders.dfy` | The two IntersectionObserver callbacks: classes `IframeObserver` and `EmbedObserver` and their batch specifications. |

Each stateful method is proved against a specification function.

- **Model of the page.** The document is the list of its script elements in
  tree order. A node's identity is a number.
- **Outside events.** Loading, errors and observer batches happen outside
  the model and arrive as inputs.
- **Exceptions.** The two exceptions the footer code can raise are
  modelled as a boolean result that callers propagate:
  - the `TypeError` of `c` on an empty step list;
  - the `RangeError` of the stylesheet gate's unbounded recursion.
- **Stack limit.** The JavaScript call-stack limit is the parameter
  `budget`: how many more nested calls fit.

## Model

| member | source | states |
|---|---|---|
| PhpStrings.Explode | rt-scripts-optimizer.php:294-295 | `explode(',', …)` always gives at least one piece, and no piece holds a comma. |
| PhpStrings.JoinExplode | rt-scripts-optimizer.php:294-295 | Joining the pieces with commas gives back the option string, so `explode` loses nothing. |
| PhpStrings.ExplodeJoin | rt-scripts-optimizer.php:294-295 | Comma-free pieces survive a join followed by `explode`. |
| PhpStrings.ExplodeNoComma | rt-scripts-optimizer.php:294-295 | A value without a comma is a single piece, itself. |
| PhpStrings.ExplodeAppend | rt-scripts-optimizer.php:294-295 | `explode` of `p,t` is `p` followed by the pieces of `t`. |
| PhpStrings.TrimIsSlice | rt-scripts-optimizer.php:299 | `trim` returns a slice of its input with only blanks outside it, and the slice neither starts nor ends with a blank. |
| PhpStrings.Trim | rt-scripts-optimizer.php:299 | `trim` never lengthens its input, and a non-empty result neither starts nor ends with a blank. |
| PhpStrings.TrimIdempotent | rt-scripts-optimizer.php:299 | Trimming twice is trimming once. |
| PhpStrings.StrPos | rt-scripts-optimizer.php:304 | `strpos` finds something exactly when the needle occurs, and it finds the first occurrence. |
| PhpStrings.StrPosTruthy | rt-scripts-optimizer.php:304 | As a condition, `strpos` is true exactly when the needle occurs but not at offset 0. |
| PhpStrings.StrReplace | rt-scripts-optimizer.php:377-378 | `str_replace` leaves a subject without the search string unchanged. |
| PhpStrings.StrReplaceSplits | rt-scripts-optimizer.php:377-378 | The subject is a list of pieces, none holding the search string, joined by the search string. The result is the same pieces joined by the replacement. |
| PhpStrings.StrReplaceRemovesAll | rt-scripts-optimizer.php:377-378 | No occurrence of the search string is left when the replacement cannot take part in one: no occurrence can start inside the replacement, and its first character appears in the search string only at the front. |
| PhpStrings.StrReplaceAddsNone | rt-scripts-optimizer.php:377-378 | `str_replace` creates no new occurrence of a text that cannot start inside the replacement and does not hold the replacement's first character. |
| PhpStrings.StrReplacePresent | rt-scripts-optimizer.php:377-378 | If the search string occurs, the result holds the replacement. |
| PhpStrings.Unique | rt-scripts-optimizer.php:310 | `array_unique` leaves no duplicates, keeps exactly the same members, and keeps the first element first. |
| PhpStrings.UniqueOfNoDup | rt-scripts-optimizer.php:310 | `array_unique` of a list without duplicates is that list. |
| PhpStrings.IndexOf | rt-scripts-optimizer.php:312 | `array_search` finds a key exactly when the value is present, and it is the first such key. |
| PhpStrings.RemoveAt | rt-scripts-optimizer.php:318 | `unset` removes one entry and keeps every other value. |
| PhpStrings.RemoveAtNoDup | rt-scripts-optimizer.php:318 | On a list without duplicates, `unset` removes the value for good and creates no duplicate. |
| ScriptsHandler.HandleSpec | rt-scripts-optimizer.php:268-333 | Disabled JS optimizations, an AMP request or the disable filter give back the tag and leave the list alone. Otherwise the list is updated: a handle on it keeps its tag, and any other handle gets exactly the `text/rtscript` marker with `esc_url(src)` and id `handle-js`. |
| ScriptsHandler.TagFilter.constructor | rt-scripts-optimizer.php:34-39 | `$skip_js` starts as lodash, wp-dom-ready, wp-hooks, wp-i18n. |
| ScriptsHandler.TagFilter.Handle | rt-scripts-optimizer.php:268-333 | One filter call: the returned tag and the new `$skip_js` are those of `HandleSpec` on the old list. |
| ScriptsHandler.TagFilter.SkipByPaths | rt-scripts-optimizer.php:298-308 | The paths loop appends the handle once, when some trimmed non-empty path is found at a non-zero offset of `src` and the handle is not yet listed; otherwise the list is unchanged. |
| ScriptsHandler.NextMembership | rt-scripts-optimizer.php:294-319 | After a call, a handle other than regenerator-runtime is listed exactly when it was listed before, or a path excluded it, or it is one of the configured handles as typed (untrimmed). |
| ScriptsHandler.SkipJsGrows | rt-scripts-optimizer.php:305-319 | Across calls the list only grows, regenerator-runtime aside. |
| ScriptsHandler.NextValid | rt-scripts-optimizer.php:310-319 | Every list a call produces still holds the defaults, has "lodash" first, and has no duplicate. |
| ScriptsHandler.DefaultsNeverMarked | rt-scripts-optimizer.php:34-39 | A default handle's tag is always returned unchanged. |
| ScriptsHandler.ConfiguredHandleKept | rt-scripts-optimizer.php:294 | A handle listed in the exclude-handles option keeps its tag. |
| ScriptsHandler.PathExcludedHandleKept | rt-scripts-optimizer.php:298-308 | A handle whose `src` matches an exclude path keeps its tag. |
| ScriptsHandler.PathAtOffsetZero | rt-scripts-optimizer.php:299-304 | A non-empty trimmed path excludes a script exactly when it occurs in `src` but not at its start. |
| ScriptsHandler.RegeneratorToggles | rt-scripts-optimizer.php:312-319 | On a single page regenerator-runtime ends up listed exactly when the merged list lacked it. On any other page it is never listed. |
| ScriptsHandler.RepeatSameTag | rt-scripts-optimizer.php:268-333 | Two identical calls return the same tag for every handle but regenerator-runtime. |
| ScriptsHandler.NoOptionsNoPaths | rt-scripts-optimizer.php:294-302 | With no options stored, both option lists are `[""]` and no path excludes anything. |
| ScriptsHandler.RegeneratorAlternates | rt-scripts-optimizer.php:312-330 | With no options on a single page, regenerator-runtime keeps its tag on the first call and is replaced by the marker on the second. |
| ScriptsHandler.RegeneratorFirstCall | rt-scripts-optimizer.php:310-316 | The first call merges in `""` and appends regenerator-runtime after it. |
| ScriptsHandler.RegeneratorSecondCall | rt-scripts-optimizer.php:312-318 | The second call finds regenerator-runtime at key 5 and unsets it. |
| AsyncStyles.Classify | rt-scripts-optimizer.php:348-396 | A handle is left alone exactly in five cases: the disable-CSS option is set, the request is AMP, the disable filter returns true, the request is in the admin, or none of the comment-out, async and on-event lists names the handle. |
| AsyncStyles.LoadAsyncStyles | rt-scripts-optimizer.php:345-397 | The tag comes back unchanged in five cases: the disable-CSS option is set, the request is AMP, the disable filter returns true, the request is in the admin, or no list claims the handle. A comment-out handle gets exactly `<!-- html -->`. The rewriting modes end with the `<noscript>` copy of the original tag. |
| AsyncStyles.DisabledKeepsTag | rt-scripts-optimizer.php:348-367 | Disabled CSS optimizations, AMP or the disable filter return the tag unchanged. |
| AsyncStyles.CommentOutTakesPrecedence | rt-scripts-optimizer.php:369-373 | Outside the admin, a comment-out handle is commented out even when other lists name it too. |
| AsyncStyles.OptimizedBranchDead | rt-scripts-optimizer.php:383-388 | The `rt-optimized-stylesheet` branch is never taken: its list is empty. |
| AsyncStyles.StrReplaceKeeps | rt-scripts-optimizer.php:377-378 | A replacement keeps an occurrence of a text when neither string's first character appears in the other. |
| AsyncStyles.PreloadMarkup | rt-scripts-optimizer.php:376-381 | For any async handle, split the tag at every `rel='stylesheet'`. The preload text is those pieces joined by the preload relation, and it holds no `rel='stylesheet'`. Split the preload text at every `media='all'`. The rewritten part is those pieces joined by the onload attribute, and the `<noscript>` copy follows it. A tag with `rel='stylesheet'` gets the preload relation, and a tag with `media='all'` gets the onload switch. A tag without `media='all'` gets the preload text as it is, with no onload switch. |
| AsyncStyles.RelsCannotReform | rt-scripts-optimizer.php:377-393 | Neither the preload nor the on-event relation can take part in a `rel='stylesheet'`, so each replacement leaves none behind. |
| AsyncStyles.OnEventMarkup | rt-scripts-optimizer.php:390-395 | Take an on-event handle whose tag has `rel='stylesheet'`. The rewritten part is the tag's pieces between its `rel='stylesheet'`s joined by `rel='rt-optimized-onevent-stylesheet'`. It holds that relation and no `rel='stylesheet'`, and the `<noscript>` copy follows it. |
| AsyncStyles.OnEventNeedsExactRel | rt-scripts-optimizer.php:392-394 | The match is literal: a tag without `rel='stylesheet'` (with double quotes, say) only gains the `<noscript>` copy. |
| AsyncStyles.CommentOutNotIdempotent | rt-scripts-optimizer.php:371-373 | Feeding a commented-out tag through the filter again wraps it twice. |
| Filters.SkipCssConcatination | rt-scripts-optimizer.php:562-574 | Concatenation is refused exactly for a handle equal to one of the untrimmed pieces; otherwise `$do_concat` is returned. |
| Filters.ArrayDiff | rt-scripts-optimizer.php:623 | `array_diff` removes every copy of the value and keeps every other value as often as it was there. |
| Filters.ArrayDiffAppend | rt-scripts-optimizer.php:623 | `array_diff` works part by part, in order. |
| Filters.ArrayDiffAbsent | rt-scripts-optimizer.php:623 | Without the value, `array_diff` changes nothing. |
| Filters.DisableEmojisRemoveDnsPrefetch | rt-scripts-optimizer.php:616-626 | Hints of any other relation are untouched. For dns-prefetch, the filtered emoji URL is gone and every other URL keeps its count. |
| Filters.RemoveDnsPrefetchIdempotent | rt-scripts-optimizer.php:616-626 | Applying the filter twice is applying it once. |
| Filters.MarkEmbedScripts | rt-scripts-optimizer.php:674 | The rewrite never shortens the content, and content it does not lengthen comes back unchanged: every replacement makes the text longer. |
| Filters.MarkEmbedScriptsCopies | rt-scripts-optimizer.php:674 | Text in which no caseless `<script` starts is carried over as it is, other tags such as the embed's `<blockquote>` included, ahead of the rewrite of what follows. |
| Filters.MarkEmbedScriptsOpening | rt-scripts-optimizer.php:674 | A `<script` opening in any letter case becomes `<script type='text/rtscript-noautoload'`, and the rewrite goes on right after it. |
| Filters.ModifyEmbeds | rt-scripts-optimizer.php:669-678 | A Reddit or Twitter core embed gets its content rewritten by the `<script` replacement. Any other block comes back unchanged. |
| Filters.NoScriptUnchanged | rt-scripts-optimizer.php:674 | Content without `<script` in any letter case is not changed. |
| Filters.EveryScriptMarked | rt-scripts-optimizer.php:674 | In a rewritten block, every `<script` in any letter case is the start of `<script type='text/rtscript-noautoload'`. |
| Filters.TagEnd | rt-scripts-optimizer.php:653 | `[^>]*` stops at the first `>`, or at the end of the content. |
| Filters.LastSrcSpace | rt-scripts-optimizer.php:653 | The greedy match settles on the last ` src=` (any letter case) before the end of the tag, if there is one. |
| Filters.IframeLazyLoading | rt-scripts-optimizer.php:653 | The rewrite never shortens the content, and content it does not lengthen comes back unchanged: every replacement makes the text longer. |
| Filters.IframeLazyLoadingCopies | rt-scripts-optimizer.php:653 | Text in which no caseless `<iframe` starts is copied over unchanged, other tags included. |
| Filters.IframeSrcDeferred | rt-scripts-optimizer.php:650-654 | In an `<iframe …>` tag, the ` src=` gets ` data-src=` instead, wherever it stands among the attributes, provided no later attribute holds a ` src=`. The other attributes and the content after the tag are kept, and the rest is rewritten in turn. |
| LazyLoaders.IframeBatchKeepsInv | rt-scripts-optimizer.php:458-467 | A batch of distinct observed entries keeps the invariant. The invariant: `data-src` never changes, and an iframe has been assigned nothing while observed, and exactly its `data-src` once, if it has one, after. An iframe stays observed exactly when none of its entries intersected. |
| LazyLoaders.IframeBatchesKeepInv | rt-scripts-optimizer.php:458-467 | The invariant holds over any number of such batches. |
| LazyLoaders.IframeOneShot | rt-scripts-optimizer.php:458-474 | For one observer, over any sequence of proper batches: an iframe has been assigned exactly its original `data-src`, once, when it is no longer observed and has one, and nothing otherwise. So no `src` is set twice by that observer. A proper batch names each target once, and only targets still observed. |
| LazyLoaders.SecondObserverAssignsAgain | rt-scripts-optimizer.php:456-474 | The loaders' listener runs on each `DOMContentLoaded`, and `u` dispatches that event on the document again (lines 199-201). The second observer observes every iframe afresh and sets an already handled iframe's `src` a second time, to the same value. |
| LazyLoaders.RepeatedEntryAssignsTwice | rt-scripts-optimizer.php:459-466 | The one-shot property needs distinct entries: a batch naming the same intersecting iframe twice sets its `src` twice. |
| LazyLoaders.IframeObserver.constructor | rt-scripts-optimizer.php:472-474 | Every iframe is observed, and nothing has been set yet. |
| LazyLoaders.IframeObserver.Callback | rt-scripts-optimizer.php:458-467 | The callback leaves the observer in the state `IframeBatch` gives for the batch. |
| LazyLoaders.Copies | rt-scripts-optimizer.php:483-487 | One new script per script, each with the original's `src` and no type. |
| LazyLoaders.EmbedBatchKeepsInv | rt-scripts-optimizer.php:478-491 | A proper batch keeps the invariant. The invariant: an embed is either still observed with its original scripts, or unobserved with the originals followed by one copy of each. An embed stays observed exactly when none of its entries intersected, so an intersecting one is unobserved and gets its copies. |
| LazyLoaders.EmbedBatchUnobserves | rt-scripts-optimizer.php:478-491 | Any batch unobserves exactly the embeds it reports in view. |
| LazyLoaders.EmbedBatchObserved | rt-scripts-optimizer.php:478-491 | An embed no entry names stays observed. |
| LazyLoaders.EmbedBatchesKeepInv | rt-scripts-optimizer.php:478-491 | The embed invariant holds over any number of proper batches. An embed is still observed exactly when no entry of any batch has reported it in view. |
| LazyLoaders.EmbedOneShot | rt-scripts-optimizer.php:475-498 | For one observer, over any sequence of proper batches: a Twitter or Reddit embed that some entry reported in view is unobserved and holds its original scripts followed by exactly one copy of each. Any other embed is still observed and holds its original scripts. |
| LazyLoaders.EmbedObserver.constructor | rt-scripts-optimizer.php:475-477 | Every Twitter embed and then every Reddit embed is observed; scripts untouched. |
| LazyLoaders.EmbedObserver.Callback | rt-scripts-optimizer.php:478-491 | The callback leaves the observer in the state `EmbedBatch` gives for the batch. |
| LazyLoaders.EmbedObserver.Visit | rt-scripts-optimizer.php:480-490 | One entry has the effect `EmbedEntry` gives it. |
| LazyLoaders.EmbedObserver.AppendCopies | rt-scripts-optimizer.php:482-488 | The scripts of the embed become the snapshot followed by its copies; observation is untouched. |
| ScriptActivation.Markers | rt-scripts-optimizer.php:239-250 | `n` collects exactly the scripts whose type is `text/rtscript`. |
| ScriptActivation.MarkersAppend | rt-scripts-optimizer.php:243-250 | The collector keeps document order. |
| ScriptActivation.RemoveNodeMembers | rt-scripts-optimizer.php:232 | `removeChild` removes exactly the node with that identity. |
| ScriptActivation.MarkersRemoveNode | rt-scripts-optimizer.php:232 | Removing a node and then collecting is collecting and then removing it. |
| ScriptActivation.PromoteEffect | rt-scripts-optimizer.php:220-237 | `rti` puts a `text/javascript` script with the marker's id at the end of the body, and the marker leaves the document. The collector no longer finds the marker, and node identities stay distinct. |
| ScriptActivation.BroadcastOrder | rt-scripts-optimizer.php:197-218 | Each name gives two dispatches, window first and then document, in the order of the names; `u` makes ten. |
| ScriptActivation.LifecycleCount | rt-scripts-optimizer.php:197-218 | `u` replays DOMContentLoaded on the window exactly once and collects nothing. |
| ScriptActivation.RunSpec | rt-scripts-optimizer.php:183-194 | `c` throws exactly when it is called past the end of the step list. Otherwise it adds to the record and leaves the listeners alone. |
| ScriptActivation.RtiSpec | rt-scripts-optimizer.php:220-237 | `rti` first records inserting a new script, created for step i's marker. It then creates at least one element and leaves the listeners alone. |
| ScriptActivation.ContinueSpec | rt-scripts-optimizer.php:187-193 | A continuation always adds to the record and never touches the listeners. |
| ScriptActivation.RtiClosedForm | rt-scripts-optimizer.php:183-237 | From step i the runner promotes, in order, every inline step up to and including the first external one, then waits for that script. If there is no external step, it promotes them all and runs `u` once. The new document is the old one with those markers promoted one by one, and the record lists one insertion per step, each carrying its marker's identity. |
| ScriptActivation.RunOrder | rt-scripts-optimizer.php:220-237 | In a run, the k-th insertion creates script `key + k` for the marker of step `i + k`, and the k-th created script is that marker's promotion. |
| ScriptActivation.PromoteRunShape | rt-scripts-optimizer.php:220-237 | Promoting markers that are older than every created script leaves the document without them, everything else in its order, followed by the created scripts in step order. |
| ScriptActivation.ResumeOnSettle | rt-scripts-optimizer.php:183-237 | A load or error of any other element changes nothing. On the awaited script, the runner resumes with the next step's promotion; after the last step it replays the lifecycle once and is done. |
| ScriptActivation.RtiCounts | rt-scripts-optimizer.php:183-237 | A run never collects again. It either leaves a script pending or ends with exactly one replay. |
| ScriptActivation.InteractSpec | rt-scripts-optimizer.php:174-181 | A gate listener throws exactly when it was listening and the page has no marker. An event it does not listen for changes nothing. Otherwise it records the collection and more after it. It removes the five gate listeners exactly when it returns normally. |
| ScriptActivation.InteractKeepsInv | rt-scripts-optimizer.php:174-181 | An interaction keeps the gate invariant: either armed with nothing done, or closed after exactly one activation. |
| ScriptActivation.SettleKeepsInv | rt-scripts-optimizer.php:223-226 | A load or error keeps the gate invariant. |
| ScriptActivation.AfterEventsKeepsInv | rt-scripts-optimizer.php:167-252 | The gate invariant holds over any sequence of interactions, loads and errors. |
| ScriptActivation.AtMostOnce | rt-scripts-optimizer.php:167-252 | From the initial page, whatever happens, `n` runs with markers at most once and `u` runs at most that often. The listeners are gone exactly when activation happened. |
| ScriptActivation.NoMarkersNotOneShot | rt-scripts-optimizer.php:174-187 | With no marker, each gate event throws on `t[0]`, keeps the listeners and never replays. A second event does it all again. |
| ScriptActivation.AllInlineActivation | rt-scripts-optimizer.php:174-252 | With only inline markers, one gate event promotes them all in order, replays the lifecycle once and removes the listeners. On a page with distinct identities the document ends with no marker. Everything else keeps its order, followed by the promoted scripts in marker order. |
| ScriptActivation.FooterScripts.constructor | rt-scripts-optimizer.php:167-172 | The five gate listeners are added, and nothing else has happened. |
| ScriptActivation.FooterScripts.Interact | rt-scripts-optimizer.php:174-181 | `e` has the effect `InteractSpec` gives it. |
| ScriptActivation.FooterScripts.RemoveListeners | rt-scripts-optimizer.php:176-180 | Exactly the five gate events stop being listened to. |
| ScriptActivation.FooterScripts.Collect | rt-scripts-optimizer.php:240-250 | The walk returns exactly `Markers(doc)`. |
| ScriptActivation.FooterScripts.Run | rt-scripts-optimizer.php:183-195 | `c` has the effect `RunSpec` gives it, including the `TypeError` past the end. |
| ScriptActivation.FooterScripts.Rti | rt-scripts-optimizer.php:220-237 | `rti` has the effect `RtiSpec` gives it. |
| ScriptActivation.FooterScripts.Continue | rt-scripts-optimizer.php:187-194 | The continuation has the effect `ContinueSpec` gives it. |
| ScriptActivation.FooterScripts.DispatchLifecycle | rt-scripts-optimizer.php:197-218 | `u` appends exactly its ten dispatches. |
| ScriptActivation.FooterScripts.LoadOrError | rt-scripts-optimizer.php:223-226 | Only the awaited script's load or error resumes the runner. |
| StyleActivation.HrefsAppend | rt-scripts-optimizer.php:433-436 | The link walk keeps tree order. |
| StyleActivation.StyleGateOneShot | rt-scripts-optimizer.php:418-448 | Suppose no on-event href is empty. Then, whatever events arrive, the page is in one of two states. Either it is untouched. Or it has loaded every on-event stylesheet exactly once, after the immediate ones, and dropped its listeners. |
| StyleActivation.EmptyHrefNeverCloses | rt-scripts-optimizer.php:420-435 | With an empty on-event href, the listeners are never removed and the links never change. The load record only grows: earlier loads stay as its prefix. |
| StyleActivation.EmptyHrefLoadsRepeat | rt-scripts-optimizer.php:420-436 | With an empty on-event href, one activation loads the hrefs up to it once per nested call that fits on the stack. |
| StyleActivation.StyleGate.constructor | rt-scripts-optimizer.php:438-448 | The listeners are added and every `rt-optimized-stylesheet` link is loaded at once. |
| StyleActivation.StyleGate.Interact | rt-scripts-optimizer.php:438-442 | A window event has the effect `StyleInteract` gives it. |
| StyleActivation.StyleGate.SiEe | rt-scripts-optimizer.php:420-426 | `s_i_e_e` loads what `GateLoads` says. It removes the listeners only when it returns. |
| StyleActivation.StyleGate.Si | rt-scripts-optimizer.php:432-437 | `s_i` loads the on-event hrefs in tree order, or throws as `GateLoads` says. |
| StyleActivation.StyleGate.SiVisit | rt-scripts-optimizer.php:434-436 | Only a link with the on-event rel goes to `s_i_rti`; the walk stops only at an empty href. |
| StyleActivation.StyleGate.SiRti | rt-scripts-optimizer.php:428-430 | `loadCSS` gets the href. An empty href re-enters `s_i_e_e` and does not return. |

## Left out

- **Effects outside the page model.** Network loading, script execution and
  `loadCSS` are not modelled. Loads and errors are outside events, and a
  `loadCSS` call is the href it records.
- **IntersectionObserver.** Geometry and timing (threshold 0, rootMargin
  200px) are not modelled. A batch of entries is an input. The one-shot
  lemmas assume that in a batch each target appears once and is still
  observed. The callbacks themselves do not check this, and
  `RepeatedEntryAssignsTwice` shows what happens without it.
- **Loader setup.** The loaders are set up from a `DOMContentLoaded`
  listener, and `u` dispatches `DOMContentLoaded` again on the document
  (lines 199-201). That creates a second pair of observers. The one-shot
  lemmas hold for one pair. `SecondObserverAssignsAgain` shows the second
  pair setting a `src` again. A second embed observer likewise copies an
  embed's scripts a second time. The interleaving of the two pairs is not
  modelled further.
- **Event dispatch.** Bubbling, capture and the page's own listeners are
  not modelled. An event reaches a gate exactly when the gate listens for
  its name.
- **Call-stack limit.** This is the `budget` parameter, not the engine's
  real limit.
- **When the footer scripts are printed.** The model starts from a page
  where they already ran. The conditions under which they are printed are
  not modelled: AMP, the disable options and `is_admin` (lines 154-164,
  408-415 and 453).
- **Hook registration.** The conditions under which the filters are
  registered are not modelled (lines 29-31, 551, 579-587, 656-658 and
  680-682). Each filter is modelled as a function called directly.
- **Code outside this model.** `rt_head_scripts`, `disable_emojis`,
  `rt_scripts_optimizer_load_scripts` and `dequeue_styles` only print fixed
  text, register hooks or call WordPress. includes/settings-page.php and
  assets/js/admin-settings.js are not part of this model.
- **Option names.** The options are read under the names the filters use.
  The settings page registers the concatenation options under different
  names (`concatenation`), and the model does not cover that mismatch.
- **Resource hints.** Entries that are arrays (with an `href` key) are not
  modelled; hints are plain URLs. The keys `array_diff` keeps are not
  modelled either; the result is read in order.
- **PCRE matching.** Only what the two patterns use is modelled: ASCII
  case-insensitive literals, the greedy `[^>]*` with backtracking to the
  last ` src=`, and `\K`.
- **Unicode.** Strings are sequences of characters, with no encoding or
  Unicode case folding.
