/**
 * The `script_loader_tag` filter `rt_scripts_handler`: it either hands a
 * script tag back unchanged or replaces it with an inert
 * `<script type="text/rtscript" ...>` marker that the footer engine promotes
 * later. The exclusion list `$skip_js` is a global that every call updates,
 * so it is the field of an object that lives for the whole request.
 */
module ScriptsHandler {
  import opened Wrappers
  import opened PhpStrings
  import opened WordPress

  /** The handles the global list starts with. */
  const DefaultSkipJs: seq<string> := ["lodash", "wp-dom-ready", "wp-hooks", "wp-i18n"]

  const RegeneratorRuntime := "regenerator-runtime"

  /** The marker that replaces a deferred script tag. */
  function MarkerTag(url: string, id: string): string
  {
    "<script type=\"text/rtscript\" src=\"" + url + "\" id=\"" + id + "\"></script>"
  }

  /** One entry of the paths option excludes `src` when, once trimmed and not
      `empty()`, `strpos` finds it at a non-zero offset. */
  predicate PathMatches(src: string, path: string)
  {
    var p := Trim(path);
    !IsEmpty(p) && StrPos(src, p).Some? && StrPos(src, p).value != 0
  }

  /** Some entry of the paths option excludes `src`. */
  predicate PathExcludes(paths: seq<string>, src: string)
  {
    paths != [] && (PathExcludes(paths[..|paths| - 1], src) || PathMatches(src, paths[|paths| - 1]))
  }

  /** The list after the loop over the paths option. */
  function AfterPaths(skip: seq<string>, handle: string, src: string, paths: seq<string>): seq<string>
  {
    if handle !in skip && PathExcludes(paths, src) then skip + [handle] else skip
  }

  /** `array_search('regenerator-runtime', $skip_js, true)` read as a PHP
      condition: key 0 is as false as "not found". `array_unique` keeps the
      first element at key 0, so key 0 is the first element of the list. */
  predicate RegeneratorKeyTruthy(merged: seq<string>)
  {
    var k := IndexOf(merged, RegeneratorRuntime);
    k.Some? && k.value != 0
  }

  /** The `if (is_single() && ! $key) ... elseif ($key) unset(...)` step. */
  function AfterRegenerator(merged: seq<string>, isSingle: bool): seq<string>
  {
    var k := IndexOf(merged, RegeneratorRuntime);
    if isSingle && !RegeneratorKeyTruthy(merged) then merged + [RegeneratorRuntime]
    else if RegeneratorKeyTruthy(merged) then RemoveAt(merged, k.value)
    else merged
  }

  /** The three conditions under which the filter returns before touching the list. */
  predicate HandlerDisabled(req: Request)
  {
    OptionIsOne(req, DisableJsOptimizations) || req.isAmp || req.disabledByFilter
  }

  /** The list after one call that did not return early. */
  function NextSkipJs(skip: seq<string>, handle: string, src: string, req: Request): seq<string>
  {
    var paths := Explode(GetOption(req, ExcludePaths));
    var handles := Explode(GetOption(req, ExcludeHandles));
    AfterRegenerator(Unique(AfterPaths(skip, handle, src, paths) + handles), req.isSingle)
  }

  datatype Outcome = Outcome(skipJs: seq<string>, tag: string)

  /** One call of the filter: the new list and the returned tag. */
  function HandleSpec(skip: seq<string>, tag: string, handle: string, src: string, req: Request): (o: Outcome)
    ensures HandlerDisabled(req) ==> o == Outcome(skip, tag)
    ensures !HandlerDisabled(req) ==> o.skipJs == NextSkipJs(skip, handle, src, req)
    ensures handle in o.skipJs ==> o.tag == tag
    ensures !HandlerDisabled(req) && handle !in o.skipJs ==>
              o.tag == MarkerTag(req.escUrl(src), handle + "-js")
  {
    if HandlerDisabled(req) then Outcome(skip, tag)
    else
      var next := NextSkipJs(skip, handle, src, req);
      if handle in next then Outcome(next, tag)
      else Outcome(next, MarkerTag(req.escUrl(src), handle + "-js"))
  }

  /** The list the filter keeps between calls within one request. */
  class TagFilter {
    var skipJs: seq<string>

    constructor ()
      ensures skipJs == DefaultSkipJs
    {
      skipJs := DefaultSkipJs;
    }

    /** `rt_scripts_handler($tag, $handle, $src)` */
    method Handle(tag: string, handle: string, src: string, req: Request) returns (r: string)
      modifies this
      ensures Outcome(skipJs, r) == HandleSpec(old(skipJs), tag, handle, src, req)
    {
      if OptionIsOne(req, DisableJsOptimizations) {
        return tag;
      }
      if req.isAmp {
        return tag;
      }
      if req.disabledByFilter {
        return tag;
      }
      var handlesOption := Explode(GetOption(req, ExcludeHandles));
      var pathsOption := Explode(GetOption(req, ExcludePaths));
      SkipByPaths(handle, src, pathsOption);
      skipJs := Unique(skipJs + handlesOption);
      var key := IndexOf(skipJs, RegeneratorRuntime);
      var keyTruthy := key.Some? && key.value != 0;
      if req.isSingle && !keyTruthy {
        skipJs := skipJs + [RegeneratorRuntime];
      } else if keyTruthy {
        skipJs := RemoveAt(skipJs, key.value);
      }

      if handle in skipJs {
        return tag;
      }
      r := MarkerTag(req.escUrl(src), handle + "-js");
    }

    /** The `foreach` over the paths option: the first path that `strpos` finds
        at a non-zero offset of `src` adds the handle, unless it is already listed. */
    method SkipByPaths(handle: string, src: string, paths: seq<string>)
      modifies this
      ensures skipJs == AfterPaths(old(skipJs), handle, src, paths)
    {
      for i := 0 to |paths|
        invariant skipJs == old(skipJs)
        invariant handle !in skipJs ==> !PathExcludes(paths[..i], src)
      {
        assert paths[..i + 1][..i] == paths[..i];
        if PathMatches(src, paths[i]) && handle !in skipJs {
          PathExcludesPrefix(paths, i + 1, src);
          skipJs := skipJs + [handle];
          return;
        }
      }
      assert paths[..|paths|] == paths;
    }
  }

  /** A path that excludes `src` excludes it from the whole list too. */
  lemma {:induction false} PathExcludesPrefix(paths: seq<string>, n: nat, src: string)
    requires n <= |paths| && PathExcludes(paths[..n], src)
    ensures PathExcludes(paths, src)
    decreases |paths| - n
  {
    if n < |paths| {
      assert paths[..n + 1][..n] == paths[..n];
      PathExcludesPrefix(paths, n + 1, src);
    } else {
      assert paths[..n] == paths;
    }
  }

  // -----------------------------------------------------------------------
  // Properties of the list across calls
  // -----------------------------------------------------------------------

  /** What every list the filter produces looks like: the defaults stay, the
      first key holds "lodash", and no handle appears twice. */
  predicate ValidSkipJs(skip: seq<string>)
  {
    && |skip| > 0 && skip[0] == "lodash"
    && NoDup(skip)
    && forall d :: d in DefaultSkipJs ==> d in skip
  }

  /** Proof step: the default list already satisfies the skip-list invariant. */
  lemma DefaultsValid()
    ensures ValidSkipJs(DefaultSkipJs)
  {
  }

  /** After one call, a handle other than "regenerator-runtime" is on the list
      exactly when it was before, or the paths option excluded it, or it is one
      of the configured handles exactly as typed (no trimming). */
  lemma NextMembership(skip: seq<string>, handle: string, src: string, req: Request, x: string)
    requires x != RegeneratorRuntime
    ensures x in NextSkipJs(skip, handle, src, req) <==>
              || x in skip
              || (x == handle && PathExcludes(Explode(GetOption(req, ExcludePaths)), src))
              || x in Explode(GetOption(req, ExcludeHandles))
  {
    var paths := Explode(GetOption(req, ExcludePaths));
    var handles := Explode(GetOption(req, ExcludeHandles));
    var merged := Unique(AfterPaths(skip, handle, src, paths) + handles);
    if RegeneratorKeyTruthy(merged) {
      var k := IndexOf(merged, RegeneratorRuntime).value;
      assert merged[k] == RegeneratorRuntime;
    }
  }

  /** The list only grows from call to call, except for "regenerator-runtime". */
  lemma SkipJsGrows(skip: seq<string>, tag: string, handle: string, src: string, req: Request)
    ensures forall x :: x in skip && x != RegeneratorRuntime ==> x in HandleSpec(skip, tag, handle, src, req).skipJs
  {
    forall x | x in skip && x != RegeneratorRuntime
      ensures x in HandleSpec(skip, tag, handle, src, req).skipJs
    {
      if !HandlerDisabled(req) {
        NextMembership(skip, handle, src, req, x);
      }
    }
  }

  /** Every call keeps the list well formed. */
  lemma NextValid(skip: seq<string>, tag: string, handle: string, src: string, req: Request)
    requires ValidSkipJs(skip)
    ensures ValidSkipJs(HandleSpec(skip, tag, handle, src, req).skipJs)
  {
    if !HandlerDisabled(req) {
      var paths := Explode(GetOption(req, ExcludePaths));
      var handles := Explode(GetOption(req, ExcludeHandles));
      var a := AfterPaths(skip, handle, src, paths);
      var merged := Unique(a + handles);
      assert merged[0] == "lodash";
      var next := NextSkipJs(skip, handle, src, req);
      if req.isSingle && !RegeneratorKeyTruthy(merged) {
        assert RegeneratorRuntime !in merged;
        assert next == merged + [RegeneratorRuntime];
      } else if RegeneratorKeyTruthy(merged) {
        var k := IndexOf(merged, RegeneratorRuntime).value;
        RemoveAtNoDup(merged, k);
        assert next[0] == "lodash";
      }
      forall d | d in DefaultSkipJs ensures d in next {
        NextMembership(skip, handle, src, req, d);
      }
    }
  }

  /** The defaults are never deferred: whatever calls came before, a default
      handle gets its tag back unchanged. */
  lemma DefaultsNeverMarked(skip: seq<string>, tag: string, handle: string, src: string, req: Request)
    requires ValidSkipJs(skip)
    requires handle in DefaultSkipJs
    ensures HandleSpec(skip, tag, handle, src, req).tag == tag
  {
    NextValid(skip, tag, handle, src, req);
  }

  /** A configured handle, taken verbatim from the comma-separated option, keeps
      its tag (unless it is "regenerator-runtime"). */
  lemma ConfiguredHandleKept(skip: seq<string>, tag: string, handle: string, src: string, req: Request)
    requires handle != RegeneratorRuntime
    requires handle in Explode(GetOption(req, ExcludeHandles))
    ensures HandleSpec(skip, tag, handle, src, req).tag == tag
  {
    if !HandlerDisabled(req) {
      NextMembership(skip, handle, src, req, handle);
    }
  }

  /** A handle the paths option excludes keeps its tag (unless it is
      "regenerator-runtime"). */
  lemma PathExcludedHandleKept(skip: seq<string>, tag: string, handle: string, src: string, req: Request)
    requires handle != RegeneratorRuntime
    requires PathExcludes(Explode(GetOption(req, ExcludePaths)), src)
    ensures HandleSpec(skip, tag, handle, src, req).tag == tag
  {
    if !HandlerDisabled(req) {
      NextMembership(skip, handle, src, req, handle);
    }
  }

  /** A path at offset 0 of the source does not exclude it: `strpos` returns 0,
      which PHP reads as false. A path found only further in does. */
  lemma PathAtOffsetZero(src: string, path: string)
    requires !IsEmpty(Trim(path))
    ensures PathMatches(src, path) <==> Contains(src, Trim(path)) && !MatchAt(src, Trim(path), 0)
  {
    StrPosTruthy(src, Trim(path));
  }

  /** On a single post or page "regenerator-runtime" is added when the merged
      list lacks it and removed when it has it; elsewhere it is always removed. */
  lemma RegeneratorToggles(skip: seq<string>, handle: string, src: string, req: Request)
    requires ValidSkipJs(skip)
    ensures var paths := Explode(GetOption(req, ExcludePaths));
            var handles := Explode(GetOption(req, ExcludeHandles));
            var before := AfterPaths(skip, handle, src, paths) + handles;
            && (req.isSingle ==> (RegeneratorRuntime in NextSkipJs(skip, handle, src, req) <==> RegeneratorRuntime !in before))
            && (!req.isSingle ==> RegeneratorRuntime !in NextSkipJs(skip, handle, src, req))
  {
    var paths := Explode(GetOption(req, ExcludePaths));
    var handles := Explode(GetOption(req, ExcludeHandles));
    var merged := Unique(AfterPaths(skip, handle, src, paths) + handles);
    assert merged[0] == "lodash";
    if RegeneratorKeyTruthy(merged) {
      var k := IndexOf(merged, RegeneratorRuntime).value;
      RemoveAtNoDup(merged, k);
    }
  }

  /** Calling the filter twice with the same arguments gives the same tag both
      times, for every handle but "regenerator-runtime". */
  lemma RepeatSameTag(skip: seq<string>, tag: string, handle: string, src: string, req: Request)
    requires handle != RegeneratorRuntime
    ensures var first := HandleSpec(skip, tag, handle, src, req);
            HandleSpec(first.skipJs, tag, handle, src, req).tag == first.tag
  {
    if !HandlerDisabled(req) {
      var first := HandleSpec(skip, tag, handle, src, req);
      NextMembership(skip, handle, src, req, handle);
      NextMembership(first.skipJs, handle, src, req, handle);
    }
  }

  /** With no option set, the paths option is [""] and excludes nothing. */
  lemma NoOptionsNoPaths(src: string, req: Request)
    requires req.options == map[]
    ensures Explode(GetOption(req, ExcludePaths)) == [""]
    ensures Explode(GetOption(req, ExcludeHandles)) == [""]
    ensures !PathExcludes(Explode(GetOption(req, ExcludePaths)), src)
  {
    var paths := Explode(GetOption(req, ExcludePaths));
    assert paths == [""];
    forall i | 0 <= i < |paths| ensures !PathMatches(src, paths[i]) {
      assert Trim(paths[i]) == "";
    }
  }

  /** For "regenerator-runtime" itself on a single page the answer alternates:
      the first call keeps the tag, the second defers it. */
  lemma RegeneratorAlternates(tag: string, src: string, req: Request)
    requires req.options == map[] && !req.isAmp && !req.disabledByFilter && req.isSingle
    ensures var first := HandleSpec(DefaultSkipJs, tag, RegeneratorRuntime, src, req);
            var second := HandleSpec(first.skipJs, tag, RegeneratorRuntime, src, req);
            && first.tag == tag
            && second.tag == MarkerTag(req.escUrl(src), RegeneratorRuntime + "-js")
  {
    RegeneratorFirstCall(src, req);
    RegeneratorSecondCall(src, req);
    RegeneratorNotListed();
    assert RegeneratorRuntime in DefaultSkipJs + ["", RegeneratorRuntime];
  }

  lemma RegeneratorNotListed()
    ensures RegeneratorRuntime !in DefaultSkipJs + [""]
  {
  }

  /** The first call adds "regenerator-runtime" after the empty handle that
      the unset handles option contributes. */
  lemma RegeneratorFirstCall(src: string, req: Request)
    requires req.options == map[] && req.isSingle
    ensures NextSkipJs(DefaultSkipJs, RegeneratorRuntime, src, req) == DefaultSkipJs + ["", RegeneratorRuntime]
  {
    NoOptionsNoPaths(src, req);
    var l0 := DefaultSkipJs + [""];
    assert NoDup(l0);
    UniqueOfNoDup(l0);
    RegeneratorNotListed();
    assert IndexOf(l0, RegeneratorRuntime) == None;
    assert AfterPaths(DefaultSkipJs, RegeneratorRuntime, src, [""]) == DefaultSkipJs;
  }

  /** The second call finds it at key 5 and unsets it again. */
  lemma RegeneratorSecondCall(src: string, req: Request)
    requires req.options == map[] && req.isSingle
    ensures NextSkipJs(DefaultSkipJs + ["", RegeneratorRuntime], RegeneratorRuntime, src, req) == DefaultSkipJs + [""]
  {
    NoOptionsNoPaths(src, req);
    var l1 := DefaultSkipJs + ["", RegeneratorRuntime];
    assert NoDup(l1);
    UniqueOfNoDup(l1);
    assert Unique(l1 + [""]) == l1 by {
      assert (l1 + [""])[..|l1|] == l1;
    }
    assert AfterPaths(l1, RegeneratorRuntime, src, [""]) == l1;
    RegeneratorNotListed();
    assert IndexOf(l1, RegeneratorRuntime) == Some(5) by {
      assert l1[5] == RegeneratorRuntime;
    }
    assert RemoveAt(l1, 5) == DefaultSkipJs + [""] by {
      assert l1[..5] == DefaultSkipJs + [""];
      assert l1[6..] == [];
    }
  }
}
