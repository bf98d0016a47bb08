/**
 * The `style_loader_tag` filter `load_async_styles`: it classifies a style
 * handle by the plugin's option lists and rewrites the `<link>` tag with
 * literal `str_replace` calls, so only the exact WordPress spelling
 * `rel='stylesheet'` / `media='all'` is rewritten.
 */
module AsyncStyles {
  import opened PhpStrings
  import opened WordPress

  const RelStylesheet := "rel='stylesheet'"
  const RelPreload := "rel='preload' as='style'"
  const MediaAll := "media='all'"
  const MediaAllOnload := MediaAll + " onload=\"this.onload=null;this.rel='stylesheet'\""
  const RelOptimized := "rel='rt-optimized-stylesheet'"
  const RelOnEvent := "rel='rt-optimized-onevent-stylesheet'"

  /** `$async_js_loading = array()`: the list of the `rt-optimized-stylesheet` branch. */
  const AsyncJsLoading: seq<string> := []

  /** How a stylesheet is delivered, in the order the filter tests for it. */
  datatype StyleMode = Unchanged | CommentOut | Preload | Optimized | OnEvent

  predicate StylesDisabled(req: Request)
  {
    OptionIsOne(req, DisableCssOptimizations) || req.isAmp || req.disabledByFilter
  }

  function CommentOutHandles(req: Request): seq<string> { Explode(GetOption(req, CommentOutStyleHandles)) }
  function AsyncHandles(req: Request): seq<string> { Explode(GetOption(req, StyleAsyncHandles)) }
  function OnEventHandles(req: Request): seq<string> { Explode(GetOption(req, StyleAsyncHandlesOnEvent)) }

  /** The first list (in the filter's order) that claims the handle decides its mode. */
  function Classify(handle: string, req: Request): (r: StyleMode)
    ensures r == Unchanged <==>
      StylesDisabled(req) || req.isAdmin ||
      (handle !in CommentOutHandles(req) && handle !in AsyncHandles(req) && handle !in OnEventHandles(req))
  {
    if StylesDisabled(req) || req.isAdmin then Unchanged
    else if handle in CommentOutHandles(req) then CommentOut
    else if handle in AsyncHandles(req) then Preload
    else if handle in AsyncJsLoading then Optimized
    else if handle in OnEventHandles(req) then OnEvent
    else Unchanged
  }

  function Noscript(html: string): string
  {
    "<noscript>" + html + "</noscript>"
  }

  predicate EndsWith(s: string, suffix: string)
  {
    |suffix| <= |s| && s[|s| - |suffix|..] == suffix
  }

  /** `str_replace('rel=\'stylesheet\'', rel, html)` */
  function RewriteRel(html: string, rel: string): string
  {
    StrReplace(html, RelStylesheet, rel)
  }

  /** `load_async_styles($html, $handle)` */
  function LoadAsyncStyles(html: string, handle: string, req: Request): (r: string)
    ensures Classify(handle, req) == Unchanged ==> r == html
    ensures Classify(handle, req) == CommentOut ==> r == "<!-- " + html + " -->"
    ensures Classify(handle, req) in {Preload, Optimized, OnEvent} ==> EndsWith(r, Noscript(html))
  {
    if OptionIsOne(req, DisableCssOptimizations) then html
    else if req.isAmp then html
    else if req.disabledByFilter then html
    else if !req.isAdmin && handle in CommentOutHandles(req) then "<!-- " + html + " -->"
    else if !req.isAdmin && handle in AsyncHandles(req) then
      var asyncHtml := RewriteRel(html, RelPreload);
      var asyncHtml := StrReplace(asyncHtml, MediaAll, MediaAllOnload);
      asyncHtml + Noscript(html)
    else if !req.isAdmin && handle in AsyncJsLoading then
      RewriteRel(html, RelOptimized) + Noscript(html)
    else if !req.isAdmin && handle in OnEventHandles(req) then
      RewriteRel(html, RelOnEvent) + Noscript(html)
    else html
  }

  /** The filter hands the tag back untouched when CSS optimizations are off,
      on AMP, and when the plugin is disabled by its filter. */
  lemma DisabledKeepsTag(html: string, handle: string, req: Request)
    requires StylesDisabled(req)
    ensures LoadAsyncStyles(html, handle, req) == html
  {
  }

  /** Commenting out wins over every other list the handle may also be on. */
  lemma CommentOutTakesPrecedence(html: string, handle: string, req: Request)
    requires !StylesDisabled(req) && !req.isAdmin
    requires handle in CommentOutHandles(req)
    ensures LoadAsyncStyles(html, handle, req) == "<!-- " + html + " -->"
  {
  }

  /** The `rt-optimized-stylesheet` branch is never taken: its list is empty. */
  lemma OptimizedBranchDead(handle: string, req: Request)
    ensures Classify(handle, req) != Optimized
  {
  }

  // -----------------------------------------------------------------------
  // What str_replace leaves in place
  // -----------------------------------------------------------------------

  /** A prefix of `t` in which no occurrence of `search` starts comes through unchanged. */
  lemma {:induction false} StrReplaceKeepsPrefix(t: string, search: string, replace: string, n: nat)
    requires |search| > 0 && n <= |t|
    requires forall j :: 0 <= j < n ==> !MatchAt(t, search, j)
    ensures n <= |StrReplace(t, search, replace)|
    ensures StrReplace(t, search, replace)[..n] == t[..n]
  {
    if n > 0 && |t| >= |search| {
      assert t[..|search|] != search by {
        assert !MatchAt(t, search, 0);
      }
      NoMatchInTail(t, search, n);
      StrReplaceKeepsPrefix(t[1..], search, replace, n - 1);
      var r := StrReplace(t[1..], search, replace);
      assert StrReplace(t, search, replace) == [t[0]] + r;
      assert ([t[0]] + r)[..n] == [t[0]] + r[..n - 1];
      assert t[..n] == [t[0]] + t[1..][..n - 1];
    }
  }

  lemma NoMatchInTail(t: string, search: string, n: nat)
    requires 0 < n <= |t|
    requires forall j :: 0 <= j < n ==> !MatchAt(t, search, j)
    ensures forall j :: 0 <= j < n - 1 ==> !MatchAt(t[1..], search, j)
  {
    forall j | 0 <= j < n - 1 ensures !MatchAt(t[1..], search, j) {
      if j + |search| <= |t| - 1 {
        assert t[1..][j..j + |search|] == t[j + 1..j + 1 + |search|];
      }
      assert !MatchAt(t, search, j + 1);
    }
  }

  lemma ContainsAfterPrefix(prefix: string, t: string, keep: string)
    requires Contains(t, keep)
    ensures Contains(prefix + t, keep)
  {
    var j :| 0 <= j <= |t| - |keep| && MatchAt(t, keep, j);
    assert (prefix + t)[|prefix| + j..|prefix| + j + |keep|] == t[j..j + |keep|];
    assert MatchAt(prefix + t, keep, |prefix| + j);
  }

  lemma MatchInTail(s: string, keep: string, k: int, m: nat)
    requires MatchAt(s, keep, k) && m <= k
    ensures MatchAt(s[m..], keep, k - m)
  {
    assert s[m..][k - m..k - m + |keep|] == s[k..k + |keep|];
  }

  /** An occurrence of `keep` survives the replacement of `search` when neither
      string can start inside the other. */
  lemma {:induction false} StrReplaceKeeps(s: string, search: string, replace: string, keep: string)
    requires |search| > 0 && |keep| > 0
    requires keep[0] !in search && search[0] !in keep
    requires Contains(s, keep)
    ensures Contains(StrReplace(s, search, replace), keep)
  {
    var k :| 0 <= k <= |s| - |keep| && MatchAt(s, keep, k);
    if |s| < |search| {
    } else if s[..|search|] == search {
      if k < |search| {
        assert false;
      }
      MatchInTail(s, keep, k, |search|);
      StrReplaceKeeps(s[|search|..], search, replace, keep);
      ContainsAfterPrefix(replace, StrReplace(s[|search|..], search, replace), keep);
    } else if k > 0 {
      MatchInTail(s, keep, k, 1);
      StrReplaceKeeps(s[1..], search, replace, keep);
      ContainsAfterPrefix([s[0]], StrReplace(s[1..], search, replace), keep);
    } else {
      KeepAtStart(s, search, replace, keep);
    }
  }

  /** `search` cannot start inside an occurrence of `keep` at the front. */
  lemma NoSearchInsideKeep(s: string, search: string, keep: string)
    requires |search| > 0 && |keep| > 0 && search[0] !in keep
    requires MatchAt(s, keep, 0)
    ensures forall j :: 0 <= j < |keep| - 1 ==> !MatchAt(s[1..], search, j)
  {
    var rest := s[1..];
    forall j | 0 <= j < |keep| - 1 ensures !MatchAt(rest, search, j) {
      assert rest[j] == s[..|keep|][j + 1] == keep[j + 1];
      if j + |search| <= |rest| {
        assert rest[j..j + |search|][0] == rest[j];
      }
    }
  }

  lemma KeepAtFront(s: string, t: string, n: nat)
    requires 0 < n <= |s| && n - 1 <= |t| && t[..n - 1] == s[1..][..n - 1]
    ensures ([s[0]] + t)[..n] == s[..n]
  {
    assert ([s[0]] + t)[..n] == [s[0]] + t[..n - 1];
    assert s[..n] == [s[0]] + s[1..][..n - 1];
  }

  lemma KeepAtStart(s: string, search: string, replace: string, keep: string)
    requires |search| > 0 && |keep| > 0 && |s| >= |search|
    requires search[0] !in keep
    requires MatchAt(s, keep, 0) && s[..|search|] != search
    ensures Contains(StrReplace(s, search, replace), keep)
  {
    var rest := s[1..];
    NoSearchInsideKeep(s, search, keep);
    StrReplaceKeepsPrefix(rest, search, replace, |keep| - 1);
    var t := StrReplace(rest, search, replace);
    var r := StrReplace(s, search, replace);
    ScanCopies(s, search, replace);
    KeepAtFront(s, t, |keep|);
    assert r[..|keep|] == s[..|keep|];
    assert MatchAt(r, keep, 0);
  }

  // -----------------------------------------------------------------------
  // The markup each mode produces
  // -----------------------------------------------------------------------

  /** The preload mode turns every WordPress `rel='stylesheet'` into a preload
      and then gives every `media='all'` the onload switch back to a
      stylesheet; the original tag follows inside `<noscript>`. Stated without
      the scans: the tag is `rels` joined by `rel='stylesheet'`, the preload
      text is `rels` joined by the preload relation, which holds no
      `rel='stylesheet'` any more and is `medias` joined by `media='all'`, and
      the rewritten head is `medias` joined by the onload attribute. A tag
      without `media='all'` (printed for a stylesheet enqueued for `print` or
      `screen`, say) is preloaded and never gets the switch. */
  lemma PreloadMarkup(html: string, handle: string, req: Request) returns (rels: seq<string>, medias: seq<string>)
    requires Classify(handle, req) == Preload
    ensures var r := LoadAsyncStyles(html, handle, req);
            var head := r[..|r| - |Noscript(html)|];
            && EndsWith(r, Noscript(html))
            && (Contains(html, RelStylesheet) ==> Contains(head, RelPreload))
            && (Contains(html, MediaAll) ==> Contains(head, MediaAllOnload))
            && |rels| > 0 && Join(rels, RelStylesheet) == html
            && (!Contains(html, MediaAll) ==> head == Join(rels, RelPreload) && !Contains(head, MediaAllOnload))
            && (forall k :: 0 <= k < |rels| ==> !Contains(rels[k], RelStylesheet))
            && !Contains(Join(rels, RelPreload), RelStylesheet)
            && |medias| > 0 && Join(medias, MediaAll) == Join(rels, RelPreload)
            && (forall k :: 0 <= k < |medias| ==> !Contains(medias[k], MediaAll))
            && head == Join(medias, MediaAllOnload)
  {
    var a := StrReplace(html, RelStylesheet, RelPreload);
    var b := StrReplace(a, MediaAll, MediaAllOnload);
    rels := StrReplaceSplits(html, RelStylesheet, RelPreload);
    medias := StrReplaceSplits(a, MediaAll, MediaAllOnload);
    RelsCannotReform();
    StrReplaceRemovesAll(html, RelStylesheet, RelPreload);
    PreloadRewrite(html);
    StrReplaceAddsNone(html, RelStylesheet, RelPreload, MediaAll);
    OnloadStartsWithMediaAll();
    ContainsPrefixOf(a, MediaAllOnload, MediaAll);
    var r := LoadAsyncStyles(html, handle, req);
    assert r == b + Noscript(html);
    assert r[..|r| - |Noscript(html)|] == b;
  }

  /** The onload attribute keeps `media='all'` at its front. */
  lemma OnloadStartsWithMediaAll()
    ensures |MediaAll| <= |MediaAllOnload| && MediaAllOnload[..|MediaAll|] == MediaAll
  {
    assert (MediaAll + " onload=\"this.onload=null;this.rel='stylesheet'\"")[..|MediaAll|] == MediaAll;
  }

  /** Each replacement of the preload mode leaves its text in the tag when the
      text it replaces was there. */
  lemma PreloadRewrite(html: string)
    ensures var b := StrReplace(StrReplace(html, RelStylesheet, RelPreload), MediaAll, MediaAllOnload);
            && (Contains(html, RelStylesheet) ==> Contains(b, RelPreload))
            && (Contains(html, MediaAll) ==> Contains(b, MediaAllOnload))
  {
    var a := StrReplace(html, RelStylesheet, RelPreload);
    if Contains(html, RelStylesheet) {
      StrReplacePresent(html, RelStylesheet, RelPreload);
      StrReplaceKeeps(a, MediaAll, MediaAllOnload, RelPreload);
    }
    if Contains(html, MediaAll) {
      StrReplaceKeeps(html, RelStylesheet, RelPreload, MediaAll);
      StrReplacePresent(a, MediaAll, MediaAllOnload);
    }
  }

  /** Neither new relation can take part in a `rel='stylesheet'`: none starts
      inside it, and its leading `r` occurs in `rel='stylesheet'` only at the front. */
  lemma RelsCannotReform()
    ensures RelPreload[0] !in RelStylesheet[1..] && NoOverlap(RelPreload, RelStylesheet)
    ensures RelOnEvent[0] !in RelStylesheet[1..] && NoOverlap(RelOnEvent, RelStylesheet)
  {
    forall p | 0 <= p < |RelPreload| ensures MismatchFrom(RelPreload, RelStylesheet, p) {
      if p == 0 {
        assert RelPreload[5] != RelStylesheet[5];
      } else if p == 6 {
        assert RelPreload[9] != RelStylesheet[3];
      } else {
        assert RelPreload[p] != RelStylesheet[0];
      }
    }
    forall p | 0 <= p < |RelOnEvent| ensures MismatchFrom(RelOnEvent, RelStylesheet, p) {
      if p == 0 {
        assert RelOnEvent[5] != RelStylesheet[5];
      } else if p == 5 {
        assert RelOnEvent[6] != RelStylesheet[1];
      } else {
        assert RelOnEvent[p] != RelStylesheet[0];
      }
    }
  }

  /** The on-event mode marks the link with the relation the footer's style gate
      looks for, followed by the `<noscript>` copy: every `rel='stylesheet'` is
      replaced (`rels` are the pieces between them) and none is left. */
  lemma OnEventMarkup(html: string, handle: string, req: Request) returns (rels: seq<string>)
    requires Classify(handle, req) == OnEvent
    requires Contains(html, RelStylesheet)
    ensures var r := LoadAsyncStyles(html, handle, req);
            var head := r[..|r| - |Noscript(html)|];
            && Contains(head, RelOnEvent)
            && !Contains(head, RelStylesheet)
            && EndsWith(r, Noscript(html))
            && |rels| > 0 && Join(rels, RelStylesheet) == html
            && (forall k :: 0 <= k < |rels| ==> !Contains(rels[k], RelStylesheet))
            && head == Join(rels, RelOnEvent)
  {
    rels := StrReplaceSplits(html, RelStylesheet, RelOnEvent);
    StrReplacePresent(html, RelStylesheet, RelOnEvent);
    RelsCannotReform();
    StrReplaceRemovesAll(html, RelStylesheet, RelOnEvent);
    var r := LoadAsyncStyles(html, handle, req);
    assert r[..|r| - |Noscript(html)|] == StrReplace(html, RelStylesheet, RelOnEvent);
  }

  /** The rewrite is literal: a tag without the exact text `rel='stylesheet'`
      (say with double quotes) is only followed by its `<noscript>` copy. */
  lemma OnEventNeedsExactRel(html: string, handle: string, req: Request)
    requires Classify(handle, req) == OnEvent
    requires !Contains(html, RelStylesheet)
    ensures LoadAsyncStyles(html, handle, req) == html + Noscript(html)
  {
  }

  /** Running the filter over its own output wraps the comment a second time:
      the rewriting is not idempotent. */
  lemma CommentOutNotIdempotent(html: string, handle: string, req: Request)
    requires Classify(handle, req) == CommentOut
    ensures var once := LoadAsyncStyles(html, handle, req);
            LoadAsyncStyles(once, handle, req) == "<!-- <!-- " + html + " --> -->"
            && LoadAsyncStyles(once, handle, req) != once
  {
    var once := LoadAsyncStyles(html, handle, req);
    assert |LoadAsyncStyles(once, handle, req)| == |once| + 9;
  }
}
