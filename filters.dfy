/**
 * The small WordPress filters of the plugin: skipping CSS concatenation per
 * handle, dropping the emoji CDN from DNS-prefetch hints, and making the
 * scripts of Twitter/Reddit embed blocks inert.
 */
module Filters {
  import opened Wrappers
  import opened PhpStrings
  import opened WordPress

  // -----------------------------------------------------------------------
  // skip_css_concatination($do_concat, $handle)
  // -----------------------------------------------------------------------

  /** The `css_do_concat` filter: concatenation is refused for a handle on the
      skip list (compared with `===`, pieces not trimmed) and left as it was
      for every other handle. */
  method SkipCssConcatination(doConcat: bool, handle: string, req: Request) returns (r: bool)
    ensures r == (doConcat && handle !in Explode(GetOption(req, SkipCssConcatinationHandles)))
  {
    var skipHandles := Explode(GetOption(req, SkipCssConcatinationHandles));
    for i := 0 to |skipHandles|
      invariant handle !in skipHandles[..i]
    {
      if skipHandles[i] == handle {
        return false;
      }
    }
    assert skipHandles[..|skipHandles|] == skipHandles;
    return doConcat;
  }

  // -----------------------------------------------------------------------
  // disable_emojis_remove_dns_prefetch($urls, $relation_type)
  // -----------------------------------------------------------------------

  const DefaultEmojiSvgUrl := "https://s.w.org/images/core/emoji/2/svg/"

  /** `array_diff($urls, array($x))` read in key order: every entry equal to `x` goes. */
  function ArrayDiff(urls: seq<string>, x: string): (r: seq<string>)
    ensures x !in r
    ensures forall u :: u != x ==> multiset(r)[u] == multiset(urls)[u]
  {
    if urls == [] then []
    else
      var rest := ArrayDiff(urls[1..], x);
      assert urls == [urls[0]] + urls[1..];
      if urls[0] == x then rest else [urls[0]] + rest
  }

  /** `array_diff` keeps the order of what it keeps: it works piece by piece. */
  lemma {:induction false} ArrayDiffAppend(a: seq<string>, b: seq<string>, x: string)
    ensures ArrayDiff(a + b, x) == ArrayDiff(a, x) + ArrayDiff(b, x)
  {
    if a != [] {
      assert (a + b)[1..] == a[1..] + b;
      ArrayDiffAppend(a[1..], b, x);
    } else {
      assert a + b == b;
    }
  }

  /** The `wp_resource_hints` filter: only DNS-prefetch hints lose the emoji
      CDN URL (after the `emoji_svg_url` filter), every copy of it, and
      nothing else. */
  function DisableEmojisRemoveDnsPrefetch(urls: seq<string>, relationType: string, req: Request): (r: seq<string>)
    ensures relationType != "dns-prefetch" ==> r == urls
    ensures relationType == "dns-prefetch" ==>
              var emoji := req.emojiSvgUrlFilter(DefaultEmojiSvgUrl);
              && emoji !in r
              && forall u :: u != emoji ==> multiset(r)[u] == multiset(urls)[u]
  {
    if relationType == "dns-prefetch" then
      var emojiSvgUrl := req.emojiSvgUrlFilter(DefaultEmojiSvgUrl);
      ArrayDiff(urls, emojiSvgUrl)
    else urls
  }

  /** Filtering twice changes nothing more. */
  lemma {:induction false} RemoveDnsPrefetchIdempotent(urls: seq<string>, relationType: string, req: Request)
    ensures var once := DisableEmojisRemoveDnsPrefetch(urls, relationType, req);
            DisableEmojisRemoveDnsPrefetch(once, relationType, req) == once
  {
    if relationType == "dns-prefetch" {
      ArrayDiffAbsent(DisableEmojisRemoveDnsPrefetch(urls, relationType, req), req.emojiSvgUrlFilter(DefaultEmojiSvgUrl));
    }
  }

  lemma {:induction false} ArrayDiffAbsent(urls: seq<string>, x: string)
    requires x !in urls
    ensures ArrayDiff(urls, x) == urls
  {
    if urls != [] {
      assert x !in urls[1..];
      ArrayDiffAbsent(urls[1..], x);
    }
  }

  // -----------------------------------------------------------------------
  // rt_scripts_optimizer_modify_embeds($block_content, $block)
  // -----------------------------------------------------------------------

  /** The parts of a parsed block the filter reads. */
  datatype Block = Block(blockName: string, attrs: map<string, string>)

  const ScriptOpen := "<script"
  const NoAutoloadOpen := "<script type='text/rtscript-noautoload'"

  /** PCRE's caseless matching without the `u` flag: ASCII letters only. */
  function Lower(c: char): char
  {
    if 'A' <= c <= 'Z' then (c as int + 32) as char else c
  }

  /** `t` starts with `p`, letter case aside. */
  predicate CiPrefix(t: string, p: string)
  {
    |p| <= |t| && forall i :: 0 <= i < |p| ==> Lower(t[i]) == Lower(p[i])
  }

  predicate CiMatchAt(t: string, p: string, k: nat)
  {
    k <= |t| && CiPrefix(t[k..], p)
  }

  /** No match of `p` (in any letter case) starts before position `n` of `s`. */
  predicate NoOpeningBefore(s: string, p: string, n: nat)
  {
    forall k :: 0 <= k < n ==> !CiMatchAt(s, p, k)
  }

  /** `preg_replace('~<script~i', "<script type='text/rtscript-noautoload'", s)` */
  function MarkEmbedScripts(s: string): (r: string)
    ensures |s| <= |r|
    ensures |r| == |s| ==> r == s
  {
    if |s| < |ScriptOpen| then s
    else if CiPrefix(s, ScriptOpen) then NoAutoloadOpen + MarkEmbedScripts(s[|ScriptOpen|..])
    else [s[0]] + MarkEmbedScripts(s[1..])
  }

  predicate IsEmbedToDefer(block: Block)
  {
    && block.blockName == "core/embed"
    && "providerNameSlug" in block.attrs
    && block.attrs["providerNameSlug"] in ["reddit", "twitter"]
  }

  /** The `render_block` filter: only a core embed block from Reddit or Twitter
      is rewritten; a block without a provider slug is left alone. */
  function ModifyEmbeds(blockContent: string, block: Block): (r: string)
    ensures !IsEmbedToDefer(block) ==> r == blockContent
    ensures IsEmbedToDefer(block) ==> r == MarkEmbedScripts(blockContent)
  {
    if IsEmbedToDefer(block) then MarkEmbedScripts(blockContent) else blockContent
  }

  /** Text in which no `<script` opening (in any letter case) starts is
      carried over as it is, other tags included, ahead of the rewrite of
      what follows. */
  lemma MarkEmbedScriptsCopies(t: string, rest: string)
    requires NoOpeningBefore(t + rest, ScriptOpen, |t|)
    ensures MarkEmbedScripts(t + rest) == t + MarkEmbedScripts(rest)
  {
    var s := t + rest;
    MarkEmbedScriptsCopiesUpTo(s, |t|);
    assert s[..|t|] == t && s[|t|..] == rest;
  }

  /** The scan copies everything before the first `<script` opening. */
  lemma {:induction false} MarkEmbedScriptsCopiesUpTo(s: string, n: nat)
    requires n <= |s| && NoOpeningBefore(s, ScriptOpen, n)
    ensures MarkEmbedScripts(s) == s[..n] + MarkEmbedScripts(s[n..])
  {
    if n > 0 {
      NoOpeningBeforeLast(s, ScriptOpen, n);
      MarkEmbedScriptsCopiesUpTo(s, n - 1);
      MarkEmbedScriptsScanAt(s, n - 1);
      CopiedOneMore(s, n, MarkEmbedScripts(s), MarkEmbedScripts(s[n - 1..]), MarkEmbedScripts(s[n..]));
    }
  }

  /** Proof step: `x` is `s[..n - 1]` then `y`, and `y` is `s[n - 1]` then `z`,
      so `x` is `s[..n]` then `z`. */
  lemma CopiedOneMore(s: string, n: nat, x: string, y: string, z: string)
    requires 0 < n <= |s|
    requires x == s[..n - 1] + y
    requires y == [s[n - 1]] + z
    ensures x == s[..n] + z
  {
    assert s[..n] == s[..n - 1] + [s[n - 1]];
  }

  /** A character that does not open a `<script` is copied. */
  lemma MarkEmbedScriptsScan(s: string)
    requires s != [] && !CiPrefix(s, ScriptOpen)
    ensures MarkEmbedScripts(s) == [s[0]] + MarkEmbedScripts(s[1..])
  {
    if |s| < |ScriptOpen| {
      NoScriptUnchangedShort(s[1..]);
      assert [s[0]] + s[1..] == s;
    }
  }

  /** The scan copies a character at which no `<script` opening starts. */
  lemma MarkEmbedScriptsScanAt(s: string, k: nat)
    requires k < |s| && !CiMatchAt(s, ScriptOpen, k)
    ensures MarkEmbedScripts(s[k..]) == [s[k]] + MarkEmbedScripts(s[k + 1..])
  {
    MarkEmbedScriptsScan(s[k..]);
    assert s[k..][1..] == s[k + 1..];
  }

  /** A `<script` opening at the front is replaced and the scan resumes after it. */
  lemma MarkEmbedScriptsReplaces(s: string)
    requires |s| >= |ScriptOpen| && CiPrefix(s, ScriptOpen)
    ensures MarkEmbedScripts(s) == NoAutoloadOpen + MarkEmbedScripts(s[|ScriptOpen|..])
  {
  }

  /** No match before `n` means none at `n - 1` and none before it. */
  lemma NoOpeningBeforeLast(s: string, p: string, n: nat)
    requires 0 < n && NoOpeningBefore(s, p, n)
    ensures NoOpeningBefore(s, p, n - 1) && !CiMatchAt(s, p, n - 1)
  {
  }

  lemma NoScriptUnchangedShort(s: string)
    requires |s| < |ScriptOpen|
    ensures MarkEmbedScripts(s) == s
  {
  }

  /** A `<script` opening, in any letter case, becomes the inert opening and
      the scan goes on right after it. */
  lemma MarkEmbedScriptsOpening(p: string, rest: string)
    requires |p| == |ScriptOpen| && CiPrefix(p, ScriptOpen)
    ensures MarkEmbedScripts(p + rest) == NoAutoloadOpen + MarkEmbedScripts(rest)
  {
    var s := p + rest;
    assert CiPrefix(s, ScriptOpen) by {
      forall i | 0 <= i < |ScriptOpen| ensures Lower(s[i]) == Lower(ScriptOpen[i]) {
        assert s[i] == p[i];
      }
    }
    assert s[|ScriptOpen|..] == rest;
  }

  /** Content without a `<script` opening (in any letter case) comes back unchanged. */
  lemma {:induction false} NoScriptUnchanged(s: string)
    requires forall k :: 0 <= k <= |s| ==> !CiMatchAt(s, ScriptOpen, k)
    ensures MarkEmbedScripts(s) == s
  {
    if |s| >= |ScriptOpen| {
      assert !CiPrefix(s, ScriptOpen) by {
        assert s[0..] == s;
        assert !CiMatchAt(s, ScriptOpen, 0);
      }
      NoMatchInTail(s);
      NoScriptUnchanged(s[1..]);
      assert MarkEmbedScripts(s) == [s[0]] + s[1..];
      assert [s[0]] + s[1..] == s;
    }
  }

  lemma NoMatchInTail(s: string)
    requires s != []
    requires forall k :: 0 <= k <= |s| ==> !CiMatchAt(s, ScriptOpen, k)
    ensures forall k :: 0 <= k <= |s[1..]| ==> !CiMatchAt(s[1..], ScriptOpen, k)
  {
    forall k | 0 <= k <= |s[1..]| ensures !CiMatchAt(s[1..], ScriptOpen, k) {
      assert s[1..][k..] == s[k + 1..];
      assert !CiMatchAt(s, ScriptOpen, k + 1);
    }
  }

  /** What the rewrite puts at the front can only start with `<` where the
      input did: a prefix without `<` is carried over letter for letter. */
  lemma {:induction false} MarkedPrefix(t: string, p: string)
    requires forall i :: 0 <= i < |p| ==> Lower(p[i]) != '<'
    requires CiPrefix(MarkEmbedScripts(t), p)
    ensures CiPrefix(t, p)
  {
    if p != [] && |t| >= |ScriptOpen| {
      assert Lower(MarkEmbedScripts(t)[0]) != '<';
      var m := MarkEmbedScripts(t[1..]);
      assert MarkEmbedScripts(t) == [t[0]] + m;
      assert CiPrefix(m, p[1..]) by {
        forall i | 0 <= i < |p[1..]| ensures Lower(m[i]) == Lower(p[1..][i]) {
          assert MarkEmbedScripts(t)[i + 1] == m[i];
        }
      }
      MarkedPrefix(t[1..], p[1..]);
      forall i | 0 <= i < |p| ensures Lower(t[i]) == Lower(p[i]) {
        if i > 0 { assert t[1..][i - 1] == t[i]; }
      }
    }
  }

  /** Matches in the tail of `pre + m` are matches in `m`, shifted. */
  lemma ShiftMatch(pre: string, m: string, k: nat)
    requires |pre| <= k
    ensures CiMatchAt(pre + m, ScriptOpen, k) ==> CiMatchAt(m, ScriptOpen, k - |pre|)
    ensures MatchAt(m, NoAutoloadOpen, k - |pre|) ==> MatchAt(pre + m, NoAutoloadOpen, k)
  {
    if k <= |pre + m| {
      assert (pre + m)[k..] == m[k - |pre|..];
    }
    if MatchAt(m, NoAutoloadOpen, k - |pre|) {
      assert (pre + m)[k..k + |NoAutoloadOpen|] == m[k - |pre|..k - |pre| + |NoAutoloadOpen|];
    }
  }

  /** Every `<script` opening (in any letter case) of a rewritten block is the
      lower-case opening followed by the inert type, so no embed script of the
      block runs when the page loads. */
  lemma {:induction false} EveryScriptMarked(s: string, k: nat)
    requires CiMatchAt(MarkEmbedScripts(s), ScriptOpen, k)
    ensures MatchAt(MarkEmbedScripts(s), NoAutoloadOpen, k)
    decreases |s|, 1
  {
    if |s| < |ScriptOpen| {
      assert false;
    } else if CiPrefix(s, ScriptOpen) {
      MarkedAfterReplace(s, k);
    } else {
      MarkedAfterCopy(s, k);
    }
  }

  /** `EveryScriptMarked` where the text opens with a `<script`. */
  lemma {:induction false} MarkedAfterReplace(s: string, k: nat)
    requires |s| >= |ScriptOpen| && CiPrefix(s, ScriptOpen)
    requires CiMatchAt(MarkEmbedScripts(s), ScriptOpen, k)
    ensures MatchAt(MarkEmbedScripts(s), NoAutoloadOpen, k)
    decreases |s|, 0
  {
    var m := MarkEmbedScripts(s[|ScriptOpen|..]);
    MarkEmbedScriptsReplaces(s);
    if k >= |NoAutoloadOpen| {
      ShiftMatch(NoAutoloadOpen, m, k);
      EveryScriptMarked(s[|ScriptOpen|..], k - |NoAutoloadOpen|);
    } else {
      ReplacementOpensOnce(m, k);
    }
  }

  /** `EveryScriptMarked` where the first character is copied. */
  lemma {:induction false} MarkedAfterCopy(s: string, k: nat)
    requires |s| >= |ScriptOpen| && !CiPrefix(s, ScriptOpen)
    requires CiMatchAt(MarkEmbedScripts(s), ScriptOpen, k)
    ensures MatchAt(MarkEmbedScripts(s), NoAutoloadOpen, k)
    decreases |s|, 0
  {
    CopiedFrontOpensNothing(s);
    MarkEmbedScriptsScan(s);
    CopyShiftBack(s[0], MarkEmbedScripts(s[1..]), MarkEmbedScripts(s), k);
    EveryScriptMarked(s[1..], k - 1);
    CopyShiftForward(s[0], MarkEmbedScripts(s[1..]), MarkEmbedScripts(s), k);
  }

  /** Proof step: an opening past a copied character is one in the rest. */
  lemma CopyShiftBack(c: char, m: string, r: string, k: nat)
    requires r == [c] + m
    requires CiMatchAt(r, ScriptOpen, k) && !CiMatchAt(r, ScriptOpen, 0)
    ensures k >= 1 && CiMatchAt(m, ScriptOpen, k - 1)
  {
    ShiftMatch([c], m, k);
  }

  /** Proof step: a marked opening in the rest stays marked behind a copied character. */
  lemma CopyShiftForward(c: char, m: string, r: string, k: nat)
    requires r == [c] + m && k >= 1
    requires MatchAt(m, NoAutoloadOpen, k - 1)
    ensures MatchAt(r, NoAutoloadOpen, k)
  {
    ShiftMatch([c], m, k);
  }

  /** No `<script` opening of the output starts at a copied first character. */
  lemma CopiedFrontOpensNothing(s: string)
    requires |s| >= |ScriptOpen| && !CiPrefix(s, ScriptOpen)
    ensures !CiMatchAt(MarkEmbedScripts(s), ScriptOpen, 0)
  {
    if CiMatchAt(MarkEmbedScripts(s), ScriptOpen, 0) {
      MarkEmbedScriptsScan(s);
      OpeningAtCopiedChar(s);
      assert false;
    }
  }

  /** Inside the inserted opening only its own `<` can start a `<script`. */
  lemma ReplacementOpensOnce(m: string, k: nat)
    requires k < |NoAutoloadOpen|
    requires CiMatchAt(NoAutoloadOpen + m, ScriptOpen, k)
    ensures MatchAt(NoAutoloadOpen + m, NoAutoloadOpen, k)
  {
    var r := NoAutoloadOpen + m;
    assert Lower(r[k]) == '<';
    assert r[k] == NoAutoloadOpen[k];
    assert k == 0;
    assert r[..|NoAutoloadOpen|] == NoAutoloadOpen;
  }

  /** A `<script` opening that starts at a character the rewrite copied over
      was already there in the input. */
  lemma OpeningAtCopiedChar(s: string)
    requires |s| >= |ScriptOpen|
    requires CiMatchAt([s[0]] + MarkEmbedScripts(s[1..]), ScriptOpen, 0)
    ensures CiPrefix(s, ScriptOpen)
  {
    var m := MarkEmbedScripts(s[1..]);
    var r := [s[0]] + m;
    var tail := ScriptOpen[1..];
    assert forall i :: 0 <= i < |tail| ==> Lower(tail[i]) != '<';
    assert r[0..] == r;
    assert CiPrefix(m, tail) by {
      forall i | 0 <= i < |tail| ensures Lower(m[i]) == Lower(tail[i]) {
        assert r[i + 1] == m[i];
      }
    }
    MarkedPrefix(s[1..], tail);
    forall i | 0 <= i < |ScriptOpen| ensures Lower(s[i]) == Lower(ScriptOpen[i]) {
      if i > 0 { assert s[1..][i - 1] == s[i]; }
    }
  }

  // -----------------------------------------------------------------------
  // rt_scripts_optimizer_iframe_lazy_loading($content)
  // -----------------------------------------------------------------------

  const IframeOpen := "<iframe"
  const SrcAttr := "src="

  /** Where `[^>]*` has to stop: the first `>` at or after `from`, or the end. */
  function TagEnd(s: string, from: nat): (e: nat)
    requires from <= |s|
    ensures from <= e <= |s|
    ensures e < |s| ==> s[e] == '>'
    ensures forall k :: from <= k < e ==> s[k] != '>'
    decreases |s| - from
  {
    if from == |s| || s[from] == '>' then from else TagEnd(s, from + 1)
  }

  /** A space followed by `src=` (in any letter case) starts at `q`. */
  predicate SrcSpaceAt(s: string, q: nat)
  {
    q < |s| && s[q] == ' ' && CiMatchAt(s, SrcAttr, q + 1)
  }

  /** The greedy `[^>]*` backs off from the end of the tag: the last ` src=`
      in `[from, e)` is the one the pattern settles on. */
  function LastSrcSpace(s: string, from: nat, e: nat): (r: Option<nat>)
    requires from <= e <= |s|
    ensures r.Some? ==> from <= r.value < e && SrcSpaceAt(s, r.value)
    ensures r.Some? ==> forall k :: r.value < k < e ==> !SrcSpaceAt(s, k)
    ensures r.None? ==> forall k :: from <= k < e ==> !SrcSpaceAt(s, k)
    decreases e - from
  {
    if e == from then None
    else if SrcSpaceAt(s, e - 1) then Some(e - 1)
    else LastSrcSpace(s, from, e - 1)
  }

  /** `preg_replace('~<iframe[^>]*\K (?=src=)~i', ' data-', $content)`: at each
      `<iframe` (in any letter case) whose opening tag holds a ` src=`, the
      last such space becomes ` data-`; the scan goes on right after it. */
  function IframeLazyLoading(s: string): (r: string)
    ensures |s| <= |r|
    ensures |r| == |s| ==> r == s
    decreases |s|
  {
    if s == [] then s
    else match IframeSrcAt(s)
      case Some(q) => s[..q] + " data-" + IframeLazyLoading(s[q + 1..])
      case None => [s[0]] + IframeLazyLoading(s[1..])
  }

  /** Where the pattern matches at the front of `s`: only at an `<iframe`
      opening, and then at the last ` src=` of its tag, if there is one. */
  function IframeSrcAt(s: string): (r: Option<nat>)
    ensures !CiPrefix(s, IframeOpen) ==> r.None?
    ensures r.Some? ==> |IframeOpen| <= r.value < TagEnd(s, |IframeOpen|) && SrcSpaceAt(s, r.value)
  {
    if CiPrefix(s, IframeOpen) then LastSrcSpace(s, |IframeOpen|, TagEnd(s, |IframeOpen|)) else None
  }

  /** Text in which no `<iframe` opening (in any letter case) starts is
      copied over unchanged, other tags included. */
  lemma IframeLazyLoadingCopies(t: string, rest: string)
    requires NoOpeningBefore(t + rest, IframeOpen, |t|)
    ensures IframeLazyLoading(t + rest) == t + IframeLazyLoading(rest)
  {
    var s := t + rest;
    IframeCopiesUpTo(s, |t|);
    assert s[..|t|] == t && s[|t|..] == rest;
  }

  /** The scan copies everything before the first `<iframe` opening. */
  lemma {:induction false} IframeCopiesUpTo(s: string, n: nat)
    requires n <= |s| && NoOpeningBefore(s, IframeOpen, n)
    ensures IframeLazyLoading(s) == s[..n] + IframeLazyLoading(s[n..])
  {
    if n > 0 {
      NoOpeningBeforeLast(s, IframeOpen, n);
      IframeCopiesUpTo(s, n - 1);
      IframeScanAt(s, n - 1);
      CopiedOneMore(s, n, IframeLazyLoading(s), IframeLazyLoading(s[n - 1..]), IframeLazyLoading(s[n..]));
    }
  }

  /** The scan copies a character at which no `<iframe` opening starts. */
  lemma IframeScanAt(s: string, k: nat)
    requires k < |s| && !CiMatchAt(s, IframeOpen, k)
    ensures IframeLazyLoading(s[k..]) == [s[k]] + IframeLazyLoading(s[k + 1..])
  {
    IframeScanCopies(s[k..]);
    assert s[k..][1..] == s[k + 1..];
  }

  /** One step of the scan: a character that does not open an iframe is copied. */
  lemma IframeScanCopies(s: string)
    requires s != [] && !CiPrefix(s, IframeOpen)
    ensures IframeLazyLoading(s) == [s[0]] + IframeLazyLoading(s[1..])
  {
  }

  /** An iframe's `src` attribute, wherever it stands in the opening tag, is
      turned into `data-src` so the iframe no longer loads with the page,
      provided no later attribute of the tag holds a ` src=` of its own; the
      other attributes and the rest of the content are kept. */
  lemma IframeSrcDeferred(attrs: string, value: string, after: string, rest: string)
    requires '>' !in attrs
    requires '>' !in value && '<' !in value && ' ' !in value
    requires '>' !in after && '<' !in after
    requires forall k :: 0 <= k < |after| ==> !SrcSpaceAt(after, k)
    ensures IframeLazyLoading(IframeOpen + attrs + " " + SrcAttr + value + after + ">" + rest)
              == IframeOpen + attrs + " data-" + SrcAttr + value + after + ">" + IframeLazyLoading(rest)
  {
    var tail := SrcAttr + value + after + ">";
    IframeTagShape(attrs, value, after, rest);
    RewriteStep(IframeOpen + attrs, tail + rest);
    TailCopied(value, after, rest);
    SplitAtSrc(IframeOpen, attrs, " data-", value, after, IframeLazyLoading(rest));
    SplitAtSrc(IframeOpen, attrs, " ", value, after, rest);
  }

  /** Attributes without `<` after the `src` are copied over unchanged. */
  lemma TailCopied(value: string, after: string, rest: string)
    requires '<' !in value && '<' !in after
    ensures var tail := SrcAttr + value + after + ">";
            IframeLazyLoading(tail + rest) == tail + IframeLazyLoading(rest)
  {
    var tail := SrcAttr + value + after + ">";
    assert '<' !in tail;
    NoTagOpening(tail, rest, IframeOpen);
    IframeLazyLoadingCopies(tail, rest);
  }

  /** Text without `<` holds no opening of a tag. */
  lemma NoTagOpening(t: string, rest: string, p: string)
    requires '<' !in t && p != [] && p[0] == '<'
    ensures NoOpeningBefore(t + rest, p, |t|)
  {
    forall k | 0 <= k < |t| ensures !CiMatchAt(t + rest, p, k) {
      assert (t + rest)[k..][0] == t[k];
    }
  }

  /** The pattern matches at the opening and settles on the space before `src=`. */
  lemma IframeTagShape(attrs: string, value: string, after: string, rest: string)
    requires '>' !in attrs
    requires '>' !in value && ' ' !in value && '>' !in after
    requires forall k :: 0 <= k < |after| ==> !SrcSpaceAt(after, k)
    ensures var s := (IframeOpen + attrs) + " " + ((SrcAttr + value + after + ">") + rest);
            IframeSrcAt(s) == Some(|IframeOpen + attrs|)
  {
    var s := (IframeOpen + attrs) + " " + ((SrcAttr + value + after + ">") + rest);
    assert CiPrefix(s, IframeOpen) by {
      assert s[..|IframeOpen|] == IframeOpen;
    }
    IframeTagEnd(attrs, value, after, rest);
    LastSrcBeforeValue(IframeOpen + attrs, value, after, rest, |IframeOpen|);
  }

  /** The opening tag ends at the `>` after the attributes that follow the value. */
  lemma IframeTagEnd(attrs: string, value: string, after: string, rest: string)
    requires '>' !in attrs && '>' !in value && '>' !in after
    ensures var s := (IframeOpen + attrs) + " " + ((SrcAttr + value + after + ">") + rest);
            TagEnd(s, |IframeOpen|) == |IframeOpen + attrs| + 5 + |value| + |after|
  {
    var s := (IframeOpen + attrs) + " " + ((SrcAttr + value + after + ">") + rest);
    var q := |IframeOpen + attrs|;
    var v := q + 5 + |value|;
    var e := v + |after|;
    forall k | |IframeOpen| <= k < e ensures s[k] != '>' {
      if k < q { assert s[k] == attrs[k - |IframeOpen|]; }
      else if v <= k { assert s[k] == after[k - v]; }
      else if k > q + 4 { assert s[k] == value[k - q - 5]; }
    }
    assert s[e] == '>';
    TagEndIs(s, |IframeOpen|, e);
  }

  /** Where the pieces of an iframe tag stand once it is written out. */
  lemma TagLayout(head: string, value: string, after: string, rest: string)
    ensures var s := head + " " + ((SrcAttr + value + after + ">") + rest);
            var q := |head|;
            var v := q + 5 + |value|;
            && |s| > v + |after|
            && s[q] == ' ' && s[q + 1..q + 5] == SrcAttr
            && s[q + 5..v] == value && s[v..v + |after|] == after && s[v + |after|] == '>'
  {
    var s := head + " " + ((SrcAttr + value + after + ">") + rest);
    var q := |head|;
    var u := (SrcAttr + value + after + ">") + rest;
    assert s[q] == ' ' && s[q + 1..] == u;
    assert u[..4] == SrcAttr;
    assert u[4..4 + |value|] == value;
    assert u[4 + |value|..4 + |value| + |after|] == after;
    assert u[4 + |value| + |after|] == '>';
  }

  /** The last ` src=` before the end of the tag is the one in front of the value. */
  lemma LastSrcBeforeValue(head: string, value: string, after: string, rest: string, from: nat)
    requires from <= |head| && ' ' !in value
    requires forall k :: 0 <= k < |after| ==> !SrcSpaceAt(after, k)
    ensures var s := head + " " + ((SrcAttr + value + after + ">") + rest);
            LastSrcSpace(s, from, |head| + 5 + |value| + |after|) == Some(|head|)
  {
    TagLayout(head, value, after, rest);
    LastSrcAtLayout(head + " " + ((SrcAttr + value + after + ">") + rest), from, |head|, value, after);
  }

  /** In a tag laid out as ` src=`, the value and the later attributes, the
      pattern settles on that ` src=`. */
  lemma LastSrcAtLayout(s: string, from: nat, q: nat, value: string, after: string)
    requires from <= q && ' ' !in value
    requires forall k :: 0 <= k < |after| ==> !SrcSpaceAt(after, k)
    requires var v := q + 5 + |value|;
             && |s| > v + |after|
             && s[q] == ' ' && s[q + 1..q + 5] == SrcAttr
             && s[q + 5..v] == value && s[v..v + |after|] == after && s[v + |after|] == '>'
    ensures LastSrcSpace(s, from, q + 5 + |value| + |after|) == Some(q)
  {
    SrcAtLayout(s, q);
    NoSrcAfterLayout(s, q, value, after);
    LastSrcIs(s, from, q, q + 5 + |value| + |after|);
  }

  /** A space followed by `src=` is a ` src=` in any letter case. */
  lemma SrcAtLayout(s: string, q: nat)
    requires q + 5 <= |s| && s[q] == ' ' && s[q + 1..q + 5] == SrcAttr
    ensures SrcSpaceAt(s, q)
  {
    forall i | 0 <= i < 4 ensures Lower(s[q + 1..][i]) == Lower(SrcAttr[i]) {
      assert s[q + 1..][i] == s[q + 1..q + 5][i];
    }
  }

  /** Neither `src=`, nor a value without spaces, nor attributes without a
      ` src=` of their own hold another ` src=`. */
  lemma NoSrcAfterLayout(s: string, q: nat, value: string, after: string)
    requires ' ' !in value
    requires forall k :: 0 <= k < |after| ==> !SrcSpaceAt(after, k)
    requires var v := q + 5 + |value|;
             && |s| > v + |after|
             && s[q + 1..q + 5] == SrcAttr
             && s[q + 5..v] == value && s[v..v + |after|] == after && s[v + |after|] == '>'
    ensures forall k :: q < k < q + 5 + |value| + |after| ==> !SrcSpaceAt(s, k)
  {
    var v := q + 5 + |value|;
    forall k | q < k < v + |after| ensures !SrcSpaceAt(s, k) {
      if k < q + 5 {
        assert s[k] == s[q + 1..q + 5][k - q - 1];
      } else if k < v {
        assert s[k] == s[q + 5..v][k - q - 5];
      } else {
        NoSrcInAfter(s, v, after, k);
      }
    }
  }

  /** Attributes without a ` src=` of their own, closed by `>`, hold none
      once placed in a larger text either. */
  lemma NoSrcInAfter(s: string, v: nat, after: string, k: nat)
    requires v + |after| < |s| && s[v..v + |after|] == after && s[v + |after|] == '>'
    requires forall j :: 0 <= j < |after| ==> !SrcSpaceAt(after, j)
    requires v <= k < v + |after|
    ensures !SrcSpaceAt(s, k)
  {
    var j := k - v;
    var m := v + |after|;
    if j + 5 <= |after| {
      assert s[k] == after[j] by {
        assert after[j] == s[v..m][j];
      }
      forall i | 0 <= i < 4
        ensures Lower(s[k + 1..][i]) == Lower(SrcAttr[i]) <==> Lower(after[j + 1..][i]) == Lower(SrcAttr[i])
      {
        assert after[j + 1..][i] == s[v..m][j + 1 + i];
      }
      assert SrcSpaceAt(s, k) == SrcSpaceAt(after, j);
    } else {
      var i := m - k - 1;
      assert s[k + 1..][i] == '>';
      assert Lower(SrcAttr[i]) != '>';
    }
  }

  /** One rewrite: the space chosen at the end of `head` becomes ` data-`. */
  lemma RewriteStep(head: string, tail: string)
    requires IframeSrcAt(head + " " + tail) == Some(|head|)
    ensures IframeLazyLoading(head + " " + tail) == head + " data-" + IframeLazyLoading(tail)
  {
    var s := head + " " + tail;
    assert s[..|head|] == head;
    assert s[|head| + 1..] == tail;
  }

  lemma TagEndIs(s: string, from: nat, e: nat)
    requires from <= e < |s| && s[e] == '>'
    requires forall k :: from <= k < e ==> s[k] != '>'
    ensures TagEnd(s, from) == e
  {
  }

  lemma LastSrcIs(s: string, from: nat, q: nat, e: nat)
    requires from <= q < e <= |s| && SrcSpaceAt(s, q)
    requires forall k :: q < k < e ==> !SrcSpaceAt(s, k)
    ensures LastSrcSpace(s, from, e) == Some(q)
  {
  }

  /** The tag written out piece by piece, regrouped around the `src` attribute. */
  lemma SplitAtSrc(open: string, attrs: string, space: string, value: string, after: string, rest: string)
    ensures open + attrs + space + SrcAttr + value + after + ">" + rest
              == (open + attrs) + space + ((SrcAttr + value + after + ">") + rest)
  {
  }
}
